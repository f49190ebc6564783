/** The protocol alignment check: the paths a schema walk collects, the field registry compared
    with them, and the walk over concrete documents. */
module SchemaWalk {
  import opened Utf16
  import opened Json
  import opened Objects

  // ---------------------------------------------------------------------
  // Schemas
  // ---------------------------------------------------------------------

  datatype Kind = ArrayType | ObjectType | ScalarType | Untyped

  /** The keywords the walk looks at, and `const`/`enum`, which decide what a node without a type admits. */
  datatype Node = Node(
    ref: Option<Text>,
    kind: Kind,
    items: Option<Node>,
    properties: Properties,
    additional: Option<bool>,
    constants: Option<seq<JSON>>)

  datatype Properties = NoProperties | Listed(list: seq<Property>)

  datatype Property = Property(key: Text, node: Node)

  datatype Schema = Schema(root: Node, defs: map<Text, Node>)

  const DEFS_PREFIX: Text := Ascii("#/$defs/")

  /** `resolveRef`: a definition of this schema, or failure. */
  function ResolveRef(schema: Schema, ref: Text): Option<Node> {
    if !(DEFS_PREFIX <= ref) then None
    else
      var name := ref[|DEFS_PREFIX|..];
      if name in schema.defs then Some(schema.defs[name]) else None
  }

  /** A reference names a definition exactly when it is the prefix and a name that is defined. */
  lemma {:induction false} ResolvesExactly(schema: Schema, ref: Text, node: Node)
    ensures ResolveRef(schema, ref) == Some(node) <==>
            exists name :: name in schema.defs && schema.defs[name] == node && ref == Ascii("#/$defs/") + name
  {
    if ResolveRef(schema, ref) == Some(node) {
      assert ref == DEFS_PREFIX + ref[|DEFS_PREFIX|..];
    }
    if name :| name in schema.defs && schema.defs[name] == node && ref == DEFS_PREFIX + name {
      assert ref[|DEFS_PREFIX|..] == name;
    }
  }

  function RefNames(schema: Schema): set<Text> {
    set name | name in schema.defs :: DEFS_PREFIX + name
  }

  /** The definitions not on the stack: what each followed reference uses up. */
  function Unvisited(schema: Schema, stack: seq<Text>): set<Text> {
    set r | r in RefNames(schema) && r !in stack
  }

  lemma {:induction false} FollowingUsesUp(schema: Schema, stack: seq<Text>, ref: Text)
    requires ResolveRef(schema, ref).Some? && ref !in stack
    ensures Unvisited(schema, stack + [ref]) < Unvisited(schema, stack)
  {
    assert ref == DEFS_PREFIX + ref[|DEFS_PREFIX|..];
    assert ref in Unvisited(schema, stack);
    assert ref in stack + [ref];
  }

  function PropertiesOf(node: Node): seq<Property> {
    if node.properties.Listed? then node.properties.list else []
  }

  function ItemPath(path: Text): Text { path + Ascii("[]") }

  function KeyPath(path: Text, key: Text): Text { path + ([0x2E] + key) }

  // ---------------------------------------------------------------------
  // The schema walk
  // ---------------------------------------------------------------------

  /** `paths` is what the walk adds, `open` the paths of objects that admit unlisted members, `loose` those of
      nodes the walk does not enter although they may hold members or elements, and `cut` says whether the
      repeated-reference guard stopped the walk anywhere. */
  datatype Walk = Failed | Walked(paths: set<Text>, open: set<Text>, loose: set<Text>, cut: bool)

  function Both(a: Walk, b: Walk): Walk {
    if a.Failed? || b.Failed? then Failed
    else Walked(a.paths + b.paths, a.open + b.open, a.loose + b.loose, a.cut || b.cut)
  }

  predicate IsObjectNode(node: Node) { node.kind.ObjectType? || node.properties.Listed? }

  predicate AdmitsUnlisted(node: Node) { IsObjectNode(node) && node.additional != Some(false) }

  predicate IsScalar(v: JSON) { !v.Arr? && !v.Obj? }

  /** A node that may hold more than a scalar though neither `type` nor its constants say what: an empty
      reference, or no type and no constants, or a constant that is no scalar. */
  predicate IsLoose(node: Node) {
    node.ref.Some?
    || (node.kind.Untyped?
        && (node.constants.None? || exists c :: c in node.constants.value && !IsScalar(c)))
  }

  /** `if (node.$ref)`: an empty reference counts as none. */
  predicate IsReference(node: Node) { node.ref.Some? && node.ref.value != [] }

  /** Every schema walk ends: a followed reference uses up a definition, everything else goes into the node. */
  function WalkNode(schema: Schema, node: Node, path: Text, stack: seq<Text>): Walk
    decreases Unvisited(schema, stack), node
  {
    if IsReference(node) then
      if node.ref.value in stack then Walked({}, {}, {}, true)
      else match ResolveRef(schema, node.ref.value)
        case None => Failed
        case Some(target) =>
          FollowingUsesUp(schema, stack, node.ref.value);
          WalkNode(schema, target, path, stack + [node.ref.value])
    else
      var here := Walked({path}, if AdmitsUnlisted(node) then {path} else {},
                         if IsLoose(node) then {path} else {}, false);
      if node.kind.ArrayType? then
        if node.items.None? then Failed
        else Both(here, WalkNode(schema, node.items.value, ItemPath(path), stack))
      else if IsObjectNode(node) then
        if node.properties.NoProperties? then here
        else Both(here, WalkProperties(schema, node.properties.list, path, stack))
      else here
  }

  function WalkProperties(schema: Schema, properties: seq<Property>, path: Text, stack: seq<Text>): Walk
    decreases Unvisited(schema, stack), properties
  {
    if properties == [] then Walked({}, {}, {}, false)
    else
      var last := |properties| - 1;
      Both(WalkProperties(schema, properties[..last], path, stack),
           WalkNode(schema, properties[last].node, KeyPath(path, properties[last].key), stack))
  }

  /** What the walk says, from the side of the schema. */
  lemma {:induction false} WalkAccounted(schema: Schema, node: Node, path: Text, stack: seq<Text>)
    ensures WalkNode(schema, node, path, stack).Walked? <==> Walkable(schema, node, stack)
    ensures WalkNode(schema, node, path, stack).Walked? ==>
              forall p :: p in WalkNode(schema, node, path, stack).paths <==> Reached(schema, node, path, stack, p)
  {
    WalkedExactly(schema, node, path, stack);
    if WalkNode(schema, node, path, stack).Walked? {
      forall p ensures p in WalkNode(schema, node, path, stack).paths <==> Reached(schema, node, path, stack, p) {
        CollectedExactly(schema, node, path, stack, p);
      }
    }
  }

  /** The walk as it runs, adding to the one set of paths. */
  class Walker {
    const schema: Schema
    var schemaPaths: set<Text>

    constructor (schema: Schema)
      ensures this.schema == schema && schemaPaths == {}
    {
      this.schema := schema;
      schemaPaths := {};
    }

    method WalkSchema(node: Node, path: Text, stack: seq<Text>) returns (ok: bool)
      modifies this
      ensures ok <==> WalkNode(schema, node, path, stack).Walked?
      ensures ok ==> schemaPaths == old(schemaPaths) + WalkNode(schema, node, path, stack).paths
      ensures ok <==> Walkable(schema, node, stack)
      ensures ok ==> forall p :: p in schemaPaths <==> p in old(schemaPaths) || Reached(schema, node, path, stack, p)
      decreases Unvisited(schema, stack), node
    {
      WalkAccounted(schema, node, path, stack);
      if IsReference(node) {
        if node.ref.value in stack {
          return true;
        }
        var target := ResolveRef(schema, node.ref.value);
        if target.None? {
          return false;
        }
        FollowingUsesUp(schema, stack, node.ref.value);
        ok := WalkSchema(target.value, path, stack + [node.ref.value]);
        return;
      }
      schemaPaths := schemaPaths + {path};
      if node.kind.ArrayType? {
        if node.items.None? {
          return false;
        }
        ok := WalkSchema(node.items.value, ItemPath(path), stack);
        return;
      }
      if IsObjectNode(node) {
        if node.additional == Some(true) && node.properties.NoProperties? {
          return true;
        }
        if node.properties.NoProperties? {
          return true;
        }
        var properties := node.properties.list;
        for i := 0 to |properties|
          invariant WalkProperties(schema, properties[..i], path, stack).Walked?
          invariant schemaPaths ==
                    old(schemaPaths) + {path} + WalkProperties(schema, properties[..i], path, stack).paths
        {
          assert properties[..i + 1][..i] == properties[..i];
          var child := WalkSchema(properties[i].node, KeyPath(path, properties[i].key), stack);
          if !child {
            FailsWithin(schema, properties, path, stack, i);
            return false;
          }
        }
        assert properties[..|properties|] == properties;
      }
      return true;
    }
  }

  lemma {:induction false} FailsWithin(schema: Schema, properties: seq<Property>, path: Text, stack: seq<Text>, i: nat)
    requires i < |properties|
    requires WalkProperties(schema, properties[..i + 1], path, stack).Failed?
    ensures WalkProperties(schema, properties, path, stack).Failed?
    decreases |properties|
  {
    if i + 1 < |properties| {
      var shorter := properties[..|properties| - 1];
      assert shorter[..i + 1] == properties[..i + 1];
      FailsWithin(schema, shorter, path, stack, i);
    } else {
      assert properties[..i + 1] == properties;
    }
  }

  // ---------------------------------------------------------------------
  // Which paths are collected
  // ---------------------------------------------------------------------

  datatype Step = Follow | Element | Into(index: nat)

  datatype Place = Nowhere | Place(node: Node, path: Text)

  /** Where one step leads: to the target of a reference, to the items of an array, or to a property. */
  function Next(schema: Schema, node: Node, path: Text, step: Step): Place {
    match step
    case Follow =>
      if IsReference(node) && ResolveRef(schema, node.ref.value).Some?
      then Place(ResolveRef(schema, node.ref.value).value, path) else Nowhere
    case Element =>
      if !IsReference(node) && node.kind.ArrayType? && node.items.Some?
      then Place(node.items.value, ItemPath(path)) else Nowhere
    case Into(i) =>
      var properties := PropertiesOf(node);
      if !IsReference(node) && !node.kind.ArrayType? && i < |properties|
      then Place(properties[i].node, KeyPath(path, properties[i].key)) else Nowhere
  }

  /** The references followed so far, `node` included. */
  function Followed(node: Node, stack: seq<Text>): seq<Text> {
    if IsReference(node) then stack + [node.ref.value] else stack
  }

  /** The steps lead from `node` at `path` to a node of its own at `target`, following no reference twice. */
  ghost predicate Route(schema: Schema, node: Node, path: Text, stack: seq<Text>, steps: seq<Step>, target: Text)
    decreases |steps|
  {
    if steps == [] then !IsReference(node) && path == target
    else
      var next := Next(schema, node, path, steps[0]);
      && next.Place? && (IsReference(node) ==> node.ref.value !in stack)
      && Route(schema, next.node, next.path, Followed(node, stack), steps[1..], target)
  }

  lemma {:induction false} FirstStep(schema: Schema, node: Node, path: Text, stack: seq<Text>, step: Step,
                                     steps: seq<Step>, target: Text)
    requires Next(schema, node, path, step).Place? && (IsReference(node) ==> node.ref.value !in stack)
    requires var next := Next(schema, node, path, step);
             Route(schema, next.node, next.path, Followed(node, stack), steps, target)
    ensures Route(schema, node, path, stack, [step] + steps, target)
  {
    assert ([step] + steps)[0] == step && ([step] + steps)[1..] == steps;
  }

  /** What the walk of a property contributes to the walk of all. */
  lemma {:induction false} PropertyWalk(schema: Schema, properties: seq<Property>, path: Text, stack: seq<Text>, i: nat)
    requires WalkProperties(schema, properties, path, stack).Walked? && i < |properties|
    ensures var all := WalkProperties(schema, properties, path, stack);
            var one := WalkNode(schema, properties[i].node, KeyPath(path, properties[i].key), stack);
            && one.Walked? && one.paths <= all.paths && one.open <= all.open && one.loose <= all.loose
            && (one.cut ==> all.cut)
    decreases |properties|
  {
    if i < |properties| - 1 {
      PropertyWalk(schema, properties[..|properties| - 1], path, stack, i);
    }
  }

  /** A route is collected. */
  lemma {:induction false} RouteCollected(schema: Schema, node: Node, path: Text, stack: seq<Text>, steps: seq<Step>,
                                          target: Text)
    requires WalkNode(schema, node, path, stack).Walked? && Route(schema, node, path, stack, steps, target)
    ensures target in WalkNode(schema, node, path, stack).paths
    decreases |steps|
  {
    if steps != [] {
      match steps[0]
      case Follow =>
        FollowingUsesUp(schema, stack, node.ref.value);
        var found := ResolveRef(schema, node.ref.value).value;
        RouteCollected(schema, found, path, stack + [node.ref.value], steps[1..], target);
      case Element =>
        RouteCollected(schema, node.items.value, ItemPath(path), stack, steps[1..], target);
      case Into(i) =>
        var properties := node.properties.list;
        PropertyWalk(schema, properties, path, stack, i);
        RouteCollected(schema, properties[i].node, KeyPath(path, properties[i].key), stack, steps[1..], target);
    }
  }

  /** What is collected has a route. */
  lemma {:induction false} CollectedHasRoute(schema: Schema, node: Node, path: Text, stack: seq<Text>, target: Text)
    returns (steps: seq<Step>)
    requires WalkNode(schema, node, path, stack).Walked? && target in WalkNode(schema, node, path, stack).paths
    ensures Route(schema, node, path, stack, steps, target)
    decreases Unvisited(schema, stack), node
  {
    if IsReference(node) {
      FollowingUsesUp(schema, stack, node.ref.value);
      var rest := CollectedHasRoute(schema, ResolveRef(schema, node.ref.value).value, path,
                                    stack + [node.ref.value], target);
      FirstStep(schema, node, path, stack, Follow, rest, target);
      steps := [Follow] + rest;
    } else if target == path {
      steps := [];
    } else if node.kind.ArrayType? {
      var rest := CollectedHasRoute(schema, node.items.value, ItemPath(path), stack, target);
      FirstStep(schema, node, path, stack, Element, rest, target);
      steps := [Element] + rest;
    } else {
      var i, rest := CollectedBelow(schema, node.properties.list, path, stack, target);
      FirstStep(schema, node, path, stack, Into(i), rest, target);
      steps := [Into(i)] + rest;
    }
  }

  lemma {:induction false} CollectedBelow(schema: Schema, properties: seq<Property>, path: Text, stack: seq<Text>,
                                          target: Text)
    returns (i: nat, steps: seq<Step>)
    requires WalkProperties(schema, properties, path, stack).Walked?
    requires target in WalkProperties(schema, properties, path, stack).paths
    ensures i < |properties|
    ensures Route(schema, properties[i].node, KeyPath(path, properties[i].key), stack, steps, target)
    decreases Unvisited(schema, stack), properties
  {
    var last := |properties| - 1;
    if target in WalkProperties(schema, properties[..last], path, stack).paths {
      i, steps := CollectedBelow(schema, properties[..last], path, stack, target);
    } else {
      i := last;
      steps := CollectedHasRoute(schema, properties[last].node, KeyPath(path, properties[last].key), stack, target);
    }
  }

  ghost predicate Reached(schema: Schema, node: Node, path: Text, stack: seq<Text>, target: Text) {
    exists steps :: Route(schema, node, path, stack, steps, target)
  }

  /** The collected paths are exactly those a route through the schema spells that follows no reference twice. */
  lemma {:induction false} CollectedExactly(schema: Schema, node: Node, path: Text, stack: seq<Text>, target: Text)
    requires WalkNode(schema, node, path, stack).Walked?
    ensures target in WalkNode(schema, node, path, stack).paths <==> Reached(schema, node, path, stack, target)
  {
    if Reached(schema, node, path, stack, target) {
      var steps :| Route(schema, node, path, stack, steps, target);
      RouteCollected(schema, node, path, stack, steps, target);
    }
    if target in WalkNode(schema, node, path, stack).paths {
      var steps := CollectedHasRoute(schema, node, path, stack, target);
    }
  }

  // ---------------------------------------------------------------------
  // When the walk succeeds
  // ---------------------------------------------------------------------

  /** A node and the references followed on the way to it. */
  datatype Spot = NoSpot | Spot(node: Node, stack: seq<Text>)

  /** Where the steps lead when no reference is followed that is on the stack. */
  function SpotAt(schema: Schema, node: Node, stack: seq<Text>, steps: seq<Step>): Spot
    decreases |steps|
  {
    if steps == [] then Spot(node, stack)
    else if IsReference(node) && node.ref.value in stack then NoSpot
    else match Next(schema, node, [], steps[0])
      case Nowhere => NoSpot
      case Place(next, _) => SpotAt(schema, next, Followed(node, stack), steps[1..])
  }

  /** Nothing to object to at this node: a reference is on the stack or names a definition, an array has items. */
  ghost predicate Passable(schema: Schema, spot: Spot) {
    spot.Spot? ==>
      match spot.node.ref
      case Some(ref) =>
        if ref != [] then ref in spot.stack || exists name :: name in schema.defs && ref == Ascii("#/$defs/") + name
        else spot.node.kind.ArrayType? ==> spot.node.items.Some?
      case None => spot.node.kind.ArrayType? ==> spot.node.items.Some?
  }

  /** Every node on the way is passable. */
  ghost predicate Walkable(schema: Schema, node: Node, stack: seq<Text>) {
    forall steps :: Passable(schema, SpotAt(schema, node, stack, steps))
  }

  lemma {:induction false} PassableNode(schema: Schema, node: Node, stack: seq<Text>)
    ensures Passable(schema, Spot(node, stack)) <==>
            if IsReference(node) then node.ref.value in stack || ResolveRef(schema, node.ref.value).Some?
            else node.kind.ArrayType? ==> node.items.Some?
  {
    if IsReference(node) {
      var ref := node.ref.value;
      if ResolveRef(schema, ref).Some? {
        ResolvesExactly(schema, ref, ResolveRef(schema, ref).value);
      }
      if name :| name in schema.defs && ref == Ascii("#/$defs/") + name {
        ResolvesExactly(schema, ref, schema.defs[name]);
      }
    }
  }

  /** A walkable node is passable and every node one step on is walkable, and the other way round. */
  lemma {:induction false} WalkableByStep(schema: Schema, node: Node, stack: seq<Text>)
    ensures Walkable(schema, node, stack) <==>
            && Passable(schema, Spot(node, stack))
            && forall step :: WalkableBehind(schema, node, stack, step)
  {
    if Walkable(schema, node, stack) {
      assert Passable(schema, SpotAt(schema, node, stack, []));
      forall step ensures WalkableBehind(schema, node, stack, step) {
        var next := Next(schema, node, [], step);
        if next.Place? && !(IsReference(node) && node.ref.value in stack) {
          forall steps ensures Passable(schema, SpotAt(schema, next.node, Followed(node, stack), steps)) {
            assert ([step] + steps)[0] == step && ([step] + steps)[1..] == steps;
            assert Passable(schema, SpotAt(schema, node, stack, [step] + steps));
          }
        }
      }
    }
    if Passable(schema, Spot(node, stack)) && forall step :: WalkableBehind(schema, node, stack, step) {
      forall steps ensures Passable(schema, SpotAt(schema, node, stack, steps)) {
        if steps != [] {
          assert WalkableBehind(schema, node, stack, steps[0]);
        }
      }
    }
  }

  ghost predicate WalkableBehind(schema: Schema, node: Node, stack: seq<Text>, step: Step) {
    var next := Next(schema, node, [], step);
    next.Place? && !(IsReference(node) && node.ref.value in stack) ==>
      Walkable(schema, next.node, Followed(node, stack))
  }

  lemma {:induction false} PropertiesWalked(schema: Schema, properties: seq<Property>, path: Text, stack: seq<Text>)
    ensures WalkProperties(schema, properties, path, stack).Walked? <==>
            forall i :: 0 <= i < |properties| ==>
              WalkNode(schema, properties[i].node, KeyPath(path, properties[i].key), stack).Walked?
    decreases |properties|
  {
    if properties != [] {
      var front, last := properties[..|properties| - 1], properties[|properties| - 1];
      PropertiesWalked(schema, front, path, stack);
      var here := WalkNode(schema, last.node, KeyPath(path, last.key), stack);
      assert WalkProperties(schema, properties, path, stack).Walked? <==>
             WalkProperties(schema, front, path, stack).Walked? && here.Walked?;
      assert properties == front + [last];
    }
  }

  /** The walk succeeds exactly when every node it can come to is passable, following no reference twice. */
  lemma {:induction false} WalkedExactly(schema: Schema, node: Node, path: Text, stack: seq<Text>)
    ensures WalkNode(schema, node, path, stack).Walked? <==> Walkable(schema, node, stack)
    decreases Unvisited(schema, stack), node
  {
    PassableNode(schema, node, stack);
    WalkableByStep(schema, node, stack);
    if IsReference(node) {
      ReferenceWalked(schema, node, path, stack);
    } else if node.kind.ArrayType? {
      if node.items.Some? {
        WalkedExactly(schema, node.items.value, ItemPath(path), stack);
        assert WalkableBehind(schema, node, stack, Element) <==> Walkable(schema, node.items.value, stack);
      }
    } else {
      NodeWalked(schema, node, path, stack);
    }
  }

  lemma {:induction false} ReferenceWalked(schema: Schema, node: Node, path: Text, stack: seq<Text>)
    requires IsReference(node)
    ensures WalkNode(schema, node, path, stack).Walked? <==>
            && Passable(schema, Spot(node, stack))
            && forall step :: WalkableBehind(schema, node, stack, step)
    decreases Unvisited(schema, stack), node, 0
  {
    PassableNode(schema, node, stack);
    var ref := node.ref.value;
    if ref !in stack && ResolveRef(schema, ref).Some? {
      var target := ResolveRef(schema, ref).value;
      FollowingUsesUp(schema, stack, ref);
      WalkedExactly(schema, target, path, stack + [ref]);
      assert WalkableBehind(schema, node, stack, Follow) <==> Walkable(schema, target, stack + [ref]);
    }
  }

  lemma {:induction false} NodeWalked(schema: Schema, node: Node, path: Text, stack: seq<Text>)
    requires !IsReference(node) && !node.kind.ArrayType?
    ensures WalkNode(schema, node, path, stack).Walked? <==> forall step :: WalkableBehind(schema, node, stack, step)
    decreases Unvisited(schema, stack), node, 0
  {
    var properties := PropertiesOf(node);
    forall i | 0 <= i < |properties|
      ensures WalkNode(schema, properties[i].node, KeyPath(path, properties[i].key), stack).Walked? <==>
              WalkableBehind(schema, node, stack, Into(i))
    {
      WalkedExactly(schema, properties[i].node, KeyPath(path, properties[i].key), stack);
    }
    PropertiesWalked(schema, properties, path, stack);
    if forall i: nat :: i < |properties| ==> WalkableBehind(schema, node, stack, Into(i)) {
      forall step ensures WalkableBehind(schema, node, stack, step) {
        match step
        case Into(i) =>
        case _ =>
      }
    }
  }

  // ---------------------------------------------------------------------
  // The registry
  // ---------------------------------------------------------------------

  datatype Entry = Entry(path: Text, openChildren: bool)

  function RegistryPaths(registry: seq<Entry>): set<Text> {
    set e | e in registry :: e.path
  }

  /** The paths whose members are open. */
  function OpenPaths(registry: seq<Entry>): set<Text> {
    set e | e in registry && e.openChildren :: e.path
  }

  /** One comparison loop: stops at the first path that is missing on the other side. */
  method AllIn(paths: set<Text>, known: set<Text>) returns (ok: bool)
    ensures ok <==> paths <= known
  {
    var rest := paths;
    while rest != {}
      invariant rest <= paths
      invariant paths - rest <= known
      decreases rest
    {
      var path :| path in rest;
      if path !in known {
        return false;
      }
      rest := rest - {path};
    }
    return true;
  }

  method CompareRegistry(schemaPaths: set<Text>, registry: seq<Entry>) returns (ok: bool)
    ensures ok <==> schemaPaths == RegistryPaths(registry)
  {
    ok := AllIn(schemaPaths, RegistryPaths(registry));
    if ok {
      ok := AllIn(RegistryPaths(registry), schemaPaths);
    }
  }

  // ---------------------------------------------------------------------
  // The value walk
  // ---------------------------------------------------------------------

  datatype Part = Key(key: Text) | Index(index: nat)

  const ROOT: Text := [0x24]

  function Extend(path: Text, part: Part): Text {
    match part
    case Key(key) => KeyPath(path, key)
    case Index(_) => ItemPath(path)
  }

  function PathOf(parts: seq<Part>): Text {
    if parts == [] then ROOT else Extend(PathOf(parts[..|parts| - 1]), parts[|parts| - 1])
  }

  /** A point and the name, or a pair of brackets. */
  function PartText(part: Part): Text {
    match part
    case Key(key) => Ascii(".") + key
    case Index(_) => Ascii("[]")
  }

  function PartsText(parts: seq<Part>): Text {
    if parts == [] then [] else PartText(parts[0]) + PartsText(parts[1..])
  }

  lemma {:induction false} TextOfOne(part: Part)
    ensures PartsText([part]) == PartText(part) && [] + PartText(part) == PartText(part)
  {
    assert [part][1..] == [] && PartText(part) + [] == PartText(part);
  }

  lemma {:induction false} TextInFront(part: Part, parts: seq<Part>)
    ensures PartsText([part] + parts) == PartText(part) + PartsText(parts)
  {
    assert ([part] + parts)[1..] == parts;
  }

  lemma {:induction false} PartBehind(parts: seq<Part>, part: Part)
    ensures PartsText(parts + [part]) == PartsText(parts) + PartText(part)
    decreases |parts|
  {
    if parts == [] {
      assert parts + [part] == [part];
      TextOfOne(part);
    } else {
      PartBehind(parts[1..], part);
      TextInFront(parts[0], parts[1..] + [part]);
      assert parts + [part] == [parts[0]] + (parts[1..] + [part]);
      Regroup(PartText(parts[0]), PartsText(parts[1..]), PartText(part));
    }
  }

  lemma {:induction false} ExtendText(path: Text, part: Part)
    ensures Extend(path, part) == path + PartText(part)
  {
    assert part.Key? ==> Ascii(".") + part.key == [0x2E] + part.key;
  }

  lemma {:induction false} PathOfParts(parts: seq<Part>)
    ensures PathOf(parts) == Ascii("$") + PartsText(parts)
    decreases |parts|
  {
    if parts == [] {
      assert Ascii("$") + [] == ROOT;
    } else {
      var front, last := parts[..|parts| - 1], parts[|parts| - 1];
      PathOfParts(front);
      PartBehind(front, last);
      assert parts == front + [last];
      ExtendText(PathOf(front), last);
      Regroup(ROOT, PartsText(front), PartText(last));
    }
  }

  /** The loop that spells a path out. */
  method NormalizePath(parts: seq<Part>) returns (value: Text)
    ensures value == PathOf(parts)
  {
    value := ROOT;
    for i := 0 to |parts|
      invariant value == PathOf(parts[..i])
    {
      assert parts[..i + 1][..i] == parts[..i];
      value := Extend(value, parts[i]);
    }
    assert parts[..|parts|] == parts;
  }

  /** In the registry, or below an open path. */
  predicate Documented(path: Text, registry: seq<Entry>) {
    path in RegistryPaths(registry) || exists e :: e in registry && e.openChildren && e.path + [0x2E] <= path
  }

  /** Every path in the document, this one included, is documented. */
  predicate ValueDocumented(v: JSON, path: Text, registry: seq<Entry>) {
    && Documented(path, registry)
    && match v
       case Arr(items) => forall i :: 0 <= i < |items| ==> ValueDocumented(items[i], ItemPath(path), registry)
       case Obj(members) =>
         forall i :: 0 <= i < |members| ==> ValueDocumented(members[i].value, KeyPath(path, members[i].key), registry)
       case _ => true
  }

  /** The parts lead somewhere into the value. */
  ghost predicate Leads(v: JSON, parts: seq<Part>)
    decreases |parts|
  {
    if parts == [] then true
    else match parts[0]
      case Index(i) => v.Arr? && i < |v.items| && Leads(v.items[i], parts[1..])
      case Key(key) =>
        v.Obj? && exists i :: 0 <= i < |v.members| && v.members[i].key == key && Leads(v.members[i].value, parts[1..])
  }

  /** A registry entry has the path, or has open children and stands above it. */
  ghost predicate Covers(registry: seq<Entry>, path: Text) {
    exists e :: e in registry && (e.path == path || (e.openChildren && e.path + Ascii(".") <= path))
  }

  lemma {:induction false} DocumentedIsCovered(path: Text, registry: seq<Entry>)
    ensures Documented(path, registry) <==> Covers(registry, path)
  {
    if path in RegistryPaths(registry) {
      var e :| e in registry && e.path == path;
    }
  }

  lemma {:induction false} PartInFront(path: Text, part: Part, parts: seq<Part>)
    ensures path + PartsText([part] + parts) == Extend(path, part) + PartsText(parts)
  {
    TextInFront(part, parts);
    ExtendText(path, part);
    Regroup(path, PartText(part), PartsText(parts));
  }

  /** Every path that leads into the value is covered. */
  ghost predicate CoversValue(v: JSON, path: Text, registry: seq<Entry>) {
    forall parts :: Leads(v, parts) ==> Covers(registry, path + PartsText(parts))
  }

  lemma {:induction false} PartCovered(v: JSON, path: Text, part: Part, below: JSON, registry: seq<Entry>)
    requires CoversValue(v, path, registry)
    requires forall parts :: Leads(below, parts) ==> Leads(v, [part] + parts)
    ensures CoversValue(below, Extend(path, part), registry)
  {
    forall parts | Leads(below, parts) ensures Covers(registry, Extend(path, part) + PartsText(parts)) {
      PartInFront(path, part, parts);
      assert Leads(v, [part] + parts);
    }
  }

  lemma {:induction false} LeadsByIndex(v: JSON, i: nat, parts: seq<Part>)
    requires v.Arr? && i < |v.items|
    ensures Leads(v, [Index(i)] + parts) <==> Leads(v.items[i], parts)
  {
    assert ([Index(i)] + parts)[0] == Index(i) && ([Index(i)] + parts)[1..] == parts;
  }

  lemma {:induction false} LeadsByName(v: JSON, i: nat, parts: seq<Part>)
    requires v.Obj? && i < |v.members| && Leads(v.members[i].value, parts)
    ensures Leads(v, [Key(v.members[i].key)] + parts)
  {
    var all := [Key(v.members[i].key)] + parts;
    assert all[0] == Key(v.members[i].key) && all[1..] == parts;
  }

  /** The value walk looks at every path that leads into the value. */
  lemma {:induction false} ValueDocumentedExactly(v: JSON, path: Text, registry: seq<Entry>)
    ensures ValueDocumented(v, path, registry) <==> CoversValue(v, path, registry)
    decreases v
  {
    DocumentedIsCovered(path, registry);
    if ValueDocumented(v, path, registry) {
      forall parts | Leads(v, parts) ensures Covers(registry, path + PartsText(parts)) {
        LeadsToDocumented(v, path, parts, registry);
      }
    }
    if CoversValue(v, path, registry) {
      assert Leads(v, []) && path + PartsText([]) == path;
      match v
      case Arr(items) =>
        forall i | 0 <= i < |items| ensures ValueDocumented(items[i], ItemPath(path), registry) {
          forall parts ensures Leads(items[i], parts) ==> Leads(v, [Index(i)] + parts) {
            LeadsByIndex(v, i, parts);
          }
          PartCovered(v, path, Index(i), items[i], registry);
          ValueDocumentedExactly(items[i], ItemPath(path), registry);
        }
      case Obj(members) =>
        forall i | 0 <= i < |members|
          ensures ValueDocumented(members[i].value, KeyPath(path, members[i].key), registry)
        {
          forall parts | Leads(members[i].value, parts) ensures Leads(v, [Key(members[i].key)] + parts) {
            LeadsByName(v, i, parts);
          }
          PartCovered(v, path, Key(members[i].key), members[i].value, registry);
          ValueDocumentedExactly(members[i].value, KeyPath(path, members[i].key), registry);
        }
      case _ =>
    }
  }

  lemma {:induction false} ValueCovered(v: JSON, parts: seq<Part>, registry: seq<Entry>)
    ensures ValueDocumented(v, PathOf(parts), registry) <==> CoversValue(v, Ascii("$") + PartsText(parts), registry)
  {
    PathOfParts(parts);
    ValueDocumentedExactly(v, PathOf(parts), registry);
  }

  lemma {:induction false} LeadsToDocumented(v: JSON, path: Text, parts: seq<Part>, registry: seq<Entry>)
    requires ValueDocumented(v, path, registry) && Leads(v, parts)
    ensures Covers(registry, path + PartsText(parts))
    decreases |parts|
  {
    if parts == [] {
      assert path + [] == path;
      DocumentedIsCovered(path, registry);
    } else {
      assert parts == [parts[0]] + parts[1..];
      PartInFront(path, parts[0], parts[1..]);
      match parts[0]
      case Index(i) => LeadsToDocumented(v.items[i], ItemPath(path), parts[1..], registry);
      case Key(key) =>
        var i :| 0 <= i < |v.members| && v.members[i].key == key && Leads(v.members[i].value, parts[1..]);
        LeadsToDocumented(v.members[i].value, KeyPath(path, key), parts[1..], registry);
    }
  }

  lemma {:induction false} PathOfLonger(parts: seq<Part>, part: Part)
    ensures PathOf(parts + [part]) == match part
                                      case Key(key) => KeyPath(PathOf(parts), key)
                                      case Index(_) => ItemPath(PathOf(parts))
  {
    assert (parts + [part])[..|parts|] == parts;
  }

  /** The loop over the elements of a list. */
  method WalkItems(v: JSON, parts: seq<Part>, registry: seq<Entry>) returns (ok: bool)
    requires v.Arr?
    ensures ok <==> forall k :: 0 <= k < |v.items| ==> ValueDocumented(v.items[k], ItemPath(PathOf(parts)), registry)
    decreases v, 0
  {
    for i := 0 to |v.items|
      invariant forall k :: 0 <= k < i ==> ValueDocumented(v.items[k], ItemPath(PathOf(parts)), registry)
    {
      PathOfLonger(parts, Index(i));
      var item := WalkValue(v.items[i], parts + [Index(i)], registry);
      if !item {
        return false;
      }
    }
    return true;
  }

  /** The loop over the members of an object. */
  method WalkMembers(v: JSON, parts: seq<Part>, registry: seq<Entry>) returns (ok: bool)
    requires v.Obj?
    ensures ok <==> forall k :: 0 <= k < |v.members| ==>
                      ValueDocumented(v.members[k].value, KeyPath(PathOf(parts), v.members[k].key), registry)
    decreases v, 0
  {
    for i := 0 to |v.members|
      invariant forall k :: 0 <= k < i ==>
                  ValueDocumented(v.members[k].value, KeyPath(PathOf(parts), v.members[k].key), registry)
    {
      PathOfLonger(parts, Key(v.members[i].key));
      var child := WalkValue(v.members[i].value, parts + [Key(v.members[i].key)], registry);
      if !child {
        return false;
      }
    }
    return true;
  }

  /** The walk over a document, stopping at the first undocumented path. */
  method WalkValue(v: JSON, parts: seq<Part>, registry: seq<Entry>) returns (ok: bool)
    ensures ok <==> ValueDocumented(v, PathOf(parts), registry)
    decreases v, 1
  {
    var path := NormalizePath(parts);
    ok := Documented(path, registry);
    if ok && v.Arr? {
      ok := WalkItems(v, parts, registry);
    } else if ok && v.Obj? {
      ok := WalkMembers(v, parts, registry);
    }
  }

  // ---------------------------------------------------------------------
  // The whole check
  // ---------------------------------------------------------------------

  /** The schema can be walked, the registry lists exactly its paths, and every document is documented. */
  ghost predicate Aligned(schema: Schema, registry: seq<Entry>, documents: seq<JSON>) {
    var w := WalkNode(schema, schema.root, ROOT, []);
    && w.Walked? && w.paths == RegistryPaths(registry)
    && forall i :: 0 <= i < |documents| ==> ValueDocumented(documents[i], ROOT, registry)
  }

  /** The same from the outside: every node on the way is passable, the registry has exactly the paths of the routes
      that follow no reference twice, and it covers every path into every document. */
  ghost predicate InLine(schema: Schema, registry: seq<Entry>, documents: seq<JSON>) {
    && Walkable(schema, schema.root, [])
    && (forall p :: (exists e :: e in registry && e.path == p) <==> Reached(schema, schema.root, Ascii("$"), [], p))
    && forall i :: 0 <= i < |documents| ==> CoversValue(documents[i], Ascii("$"), registry)
  }

  lemma {:induction false} AlignedMeansInLine(schema: Schema, registry: seq<Entry>, documents: seq<JSON>)
    ensures Aligned(schema, registry, documents) <==> InLine(schema, registry, documents)
  {
    var w := WalkNode(schema, schema.root, ROOT, []);
    assert ROOT == Ascii("$");
    WalkAccounted(schema, schema.root, ROOT, []);
    forall i | 0 <= i < |documents|
      ensures ValueDocumented(documents[i], ROOT, registry) <==> CoversValue(documents[i], Ascii("$"), registry)
    {
      ValueDocumentedExactly(documents[i], ROOT, registry);
    }
    forall p ensures p in RegistryPaths(registry) <==> exists e :: e in registry && e.path == p {
    }
  }

  /** The script from the schema walk to the document walks, stopping at the first failure. */
  method CheckAlignment(schema: Schema, registry: seq<Entry>, documents: seq<JSON>) returns (ok: bool)
    ensures ok <==> Aligned(schema, registry, documents)
    ensures ok <==> InLine(schema, registry, documents)
  {
    AlignedMeansInLine(schema, registry, documents);
    var walker := new Walker(schema);
    ok := walker.WalkSchema(schema.root, ROOT, []);
    if ok {
      ok := CompareRegistry(walker.schemaPaths, registry);
    }
    if ok {
      for i := 0 to |documents|
        invariant forall k :: 0 <= k < i ==> ValueDocumented(documents[k], ROOT, registry)
      {
        var documented := WalkValue(documents[i], [], registry);
        if !documented {
          return false;
        }
      }
    }
  }
}
