/** What the alignment check can vouch for: documents against the routes through the schema, when the
    walk meets them all, and when no registry can. */
module SchemaSoundness {
  import opened Utf16
  import opened Json
  import opened Objects
  import opened SchemaWalk

  // ---------------------------------------------------------------------
  // What a schema accepts
  // ---------------------------------------------------------------------

  function FindProperty(properties: seq<Property>, key: Text): Option<Node> {
    if properties == [] then None
    else if properties[|properties| - 1].key == key then Some(properties[|properties| - 1].node)
    else FindProperty(properties[..|properties| - 1], key)
  }

  /** What a reference stands for: the empty one for the whole schema, any other for a definition. */
  function Target(schema: Schema, ref: Text): Option<Node> {
    if ref == [] then Some(schema.root) else ResolveRef(schema, ref)
  }

  /** JSON Schema acceptance with at most `n` references followed before a value is looked at. Keywords left out
      (`required`, `pattern`, `minLength`, ...) could only accept fewer documents. */
  ghost predicate AcceptsWithin(schema: Schema, node: Node, v: JSON, n: nat)
    decreases v, 0, n
  {
    if node.ref.Some? then
      && Target(schema, node.ref.value).Some? && n > 0
      && AcceptsWithin(schema, Target(schema, node.ref.value).value, v, n - 1)
    else
      && (node.kind.ArrayType? ==> v.Arr?)
      && (node.kind.ObjectType? ==> v.Obj?)
      && (node.kind.ScalarType? ==> IsScalar(v))
      && (node.constants.Some? ==> EqualsConstant(v, node.constants.value))
      && (v.Arr? && node.items.Some? ==>
            forall i :: 0 <= i < |v.items| ==> AcceptsFully(schema, node.items.value, v.items[i]))
      && (v.Obj? ==> forall i :: 0 <= i < |v.members| ==> AcceptsMember(schema, node, v.members[i]))
  }

  ghost predicate EqualsConstant(v: JSON, constants: seq<JSON>) { exists c :: c in constants && Same(v, c) }

  ghost predicate AcceptsMember(schema: Schema, node: Node, m: Member)
    decreases m
  {
    match FindProperty(PropertiesOf(node), m.key)
    case Some(child) => AcceptsFully(schema, child, m.value)
    case None => node.additional != Some(false)
  }

  /** The schema node accepts the value. */
  ghost predicate AcceptsFully(schema: Schema, node: Node, v: JSON)
    decreases v, 1
  {
    exists n: nat :: AcceptsWithin(schema, node, v, n)
  }

  /** A well-formed value the node accepts. */
  ghost predicate Fits(schema: Schema, node: Node, v: JSON) { WellFormed(v) && AcceptsFully(schema, node, v) }

  // ---------------------------------------------------------------------
  // Equal values are accepted and documented alike
  // ---------------------------------------------------------------------

  lemma {:induction false} SameTransitive(a: JSON, b: JSON, c: JSON)
    requires WellFormed(a) && Same(a, b) && Same(a, c)
    ensures Same(b, c)
  {
    SameIsWellFormed(a, b);
    SameIsWellFormed(a, c);
    NormalDecidesSame(a, b);
    NormalDecidesSame(a, c);
    NormalDecidesSame(b, c);
  }

  lemma {:induction false} SameAccepted(schema: Schema, node: Node, v: JSON, c: JSON, n: nat)
    requires WellFormed(v) && Same(v, c) && AcceptsWithin(schema, node, v, n)
    ensures AcceptsWithin(schema, node, c, n)
    decreases v, 0, n
  {
    if node.ref.Some? {
      SameAccepted(schema, Target(schema, node.ref.value).value, v, c, n - 1);
    } else {
      if node.constants.Some? {
        var d :| d in node.constants.value && Same(v, d);
        SameTransitive(v, c, d);
      }
      match v
      case Arr(items) =>
        if node.items.Some? {
          forall i | 0 <= i < |items| ensures AcceptsFully(schema, node.items.value, c.items[i]) {
            SameAcceptedFully(schema, node.items.value, items[i], c.items[i]);
          }
        }
      case Obj(members) =>
        forall j | 0 <= j < |c.members| ensures AcceptsMember(schema, node, c.members[j]) {
          var i := PartnersBack(members, c.members, j);
          assert AcceptsMember(schema, node, members[i]);
          if FindProperty(PropertiesOf(node), members[i].key).Some? {
            var child := FindProperty(PropertiesOf(node), members[i].key).value;
            SameAcceptedFully(schema, child, members[i].value, c.members[j].value);
          }
        }
      case _ =>
    }
  }

  lemma {:induction false} SameAcceptedFully(schema: Schema, node: Node, v: JSON, c: JSON)
    requires WellFormed(v) && Same(v, c) && AcceptsFully(schema, node, v)
    ensures AcceptsFully(schema, node, c)
    decreases v, 1
  {
    var n: nat :| AcceptsWithin(schema, node, v, n);
    SameAccepted(schema, node, v, c, n);
  }

  lemma {:induction false} SameDocumented(v: JSON, c: JSON, path: Text, registry: seq<Entry>)
    requires Same(v, c) && ValueDocumented(c, path, registry)
    ensures ValueDocumented(v, path, registry)
    decreases v
  {
    match v
    case Arr(items) =>
      forall i | 0 <= i < |items| ensures ValueDocumented(items[i], ItemPath(path), registry) {
        SameDocumented(items[i], c.items[i], ItemPath(path), registry);
      }
    case Obj(members) =>
      forall i | 0 <= i < |members|
        ensures ValueDocumented(members[i].value, KeyPath(path, members[i].key), registry)
      {
        assert HasPartner(members[i], c.members);
        var j :| 0 <= j < |c.members| && members[i].key == c.members[j].key
                 && Same(members[i].value, c.members[j].value);
        SameDocumented(members[i].value, c.members[j].value, KeyPath(path, members[i].key), registry);
      }
    case _ =>
  }

  // ---------------------------------------------------------------------
  // Below an open entry
  // ---------------------------------------------------------------------

  ghost predicate UnderOpen(path: Text, registry: seq<Entry>) {
    exists e :: e in registry && e.openChildren && e.path + [0x2E] <= path
  }

  /** At an open entry, or below one. */
  ghost predicate OpenAt(path: Text, registry: seq<Entry>) {
    path in OpenPaths(registry) || UnderOpen(path, registry)
  }

  lemma {:induction false} StaysUnder(path: Text, more: Text, registry: seq<Entry>)
    requires UnderOpen(path, registry)
    ensures UnderOpen(path + more, registry)
  {
    var e :| e in registry && e.openChildren && e.path + [0x2E] <= path;
    assert e.path + [0x2E] <= path + more;
  }

  lemma {:induction false} MemberUnderOpen(path: Text, key: Text, registry: seq<Entry>)
    requires OpenAt(path, registry)
    ensures UnderOpen(KeyPath(path, key), registry)
  {
    if UnderOpen(path, registry) {
      StaysUnder(path, [0x2E] + key, registry);
    } else {
      var e :| e in registry && e.openChildren && e.path == path;
      assert e.path + [0x2E] <= KeyPath(path, key);
    }
  }

  /** Everything below an open entry is documented, however deep. */
  lemma {:induction false} BelowOpen(v: JSON, path: Text, registry: seq<Entry>)
    requires UnderOpen(path, registry)
    ensures ValueDocumented(v, path, registry)
    decreases v
  {
    match v
    case Arr(items) =>
      forall i | 0 <= i < |items| ensures ValueDocumented(items[i], ItemPath(path), registry) {
        StaysUnder(path, Ascii("[]"), registry);
        BelowOpen(items[i], ItemPath(path), registry);
      }
    case Obj(members) =>
      forall i | 0 <= i < |members|
        ensures ValueDocumented(members[i].value, KeyPath(path, members[i].key), registry)
      {
        StaysUnder(path, [0x2E] + members[i].key, registry);
        BelowOpen(members[i].value, KeyPath(path, members[i].key), registry);
      }
    case _ =>
  }

  // ---------------------------------------------------------------------
  // Routes without the guard
  // ---------------------------------------------------------------------

  /** A node that neither refers elsewhere nor lists constants. */
  predicate IsPlain(node: Node) { node.ref.None? && node.constants.None? }

  predicate AdmitsObjects(node: Node) { node.kind.ObjectType? || node.kind.Untyped? }

  predicate AdmitsArrays(node: Node) { node.kind.ArrayType? || node.kind.Untyped? }

  datatype Move = ToTarget | IntoItems | IntoMember(key: Text)

  /** Where one move leads: to what a reference stands for, to the elements, or to the member of that name. */
  function Lead(schema: Schema, node: Node, path: Text, move: Move): Place {
    match move
    case ToTarget =>
      if node.ref.Some? && Target(schema, node.ref.value).Some?
      then Place(Target(schema, node.ref.value).value, path) else Nowhere
    case IntoItems =>
      if IsPlain(node) && AdmitsArrays(node) && node.items.Some?
      then Place(node.items.value, ItemPath(path)) else Nowhere
    case IntoMember(key) =>
      if IsPlain(node) && AdmitsObjects(node) && FindProperty(PropertiesOf(node), key).Some?
      then Place(FindProperty(PropertiesOf(node), key).value, KeyPath(path, key)) else Nowhere
  }

  /** Where the moves lead, following any reference any number of times. */
  function Destination(schema: Schema, node: Node, path: Text, moves: seq<Move>): Place
    decreases |moves|
  {
    if moves == [] then Place(node, path)
    else match Lead(schema, node, path, moves[0])
      case Nowhere => Nowhere
      case Place(next, there) => Destination(schema, next, there, moves[1..])
  }

  /** What the registry must say of a node that is no reference: its accepted constants are documented, or else
      its path is, at an open entry or below where members come unlisted, below one where elements do. */
  ghost predicate GoodNode(schema: Schema, node: Node, path: Text, registry: seq<Entry>) {
    if node.constants.Some? then
      forall c :: c in node.constants.value && Fits(schema, node, c) ==> ValueDocumented(c, path, registry)
    else
      && Documented(path, registry)
      && (AdmitsObjects(node) && node.additional != Some(false) ==> OpenAt(path, registry))
      && (AdmitsArrays(node) && node.items.None? ==> UnderOpen(path, registry))
  }

  ghost predicate GoodPlace(schema: Schema, place: Place, registry: seq<Entry>) {
    place.Place? && place.node.ref.None? ==> GoodNode(schema, place.node, place.path, registry)
  }

  ghost predicate RoutesGood(schema: Schema, node: Node, path: Text, registry: seq<Entry>) {
    forall moves :: GoodPlace(schema, Destination(schema, node, path, moves), registry)
  }

  lemma {:induction false} LeadGood(schema: Schema, node: Node, path: Text, move: Move, registry: seq<Entry>)
    requires RoutesGood(schema, node, path, registry) && Lead(schema, node, path, move).Place?
    ensures var next := Lead(schema, node, path, move); RoutesGood(schema, next.node, next.path, registry)
  {
    var next := Lead(schema, node, path, move);
    forall moves ensures GoodPlace(schema, Destination(schema, next.node, next.path, moves), registry) {
      assert ([move] + moves)[0] == move && ([move] + moves)[1..] == moves;
      assert GoodPlace(schema, Destination(schema, node, path, [move] + moves), registry);
    }
  }

  // ---------------------------------------------------------------------
  // Good routes document every document
  // ---------------------------------------------------------------------

  lemma {:induction false} GoodRoutesDocument(schema: Schema, node: Node, path: Text, v: JSON, n: nat,
                                              registry: seq<Entry>)
    requires RoutesGood(schema, node, path, registry)
    requires WellFormed(v) && AcceptsWithin(schema, node, v, n)
    ensures ValueDocumented(v, path, registry)
    decreases v, 1, n
  {
    assert GoodPlace(schema, Destination(schema, node, path, []), registry);
    if node.ref.Some? {
      LeadGood(schema, node, path, ToTarget, registry);
      GoodRoutesDocument(schema, Target(schema, node.ref.value).value, path, v, n - 1, registry);
    } else if node.constants.Some? {
      var c :| c in node.constants.value && Same(v, c);
      SameIsWellFormed(v, c);
      SameAccepted(schema, node, v, c, n);
      assert Fits(schema, node, c);
      SameDocumented(v, c, path, registry);
    } else {
      match v
      case Arr(items) =>
        forall i | 0 <= i < |items| ensures ValueDocumented(items[i], ItemPath(path), registry) {
          GoodElement(schema, node, path, v, n, i, registry);
        }
      case Obj(members) =>
        forall i | 0 <= i < |members|
          ensures ValueDocumented(members[i].value, KeyPath(path, members[i].key), registry)
        {
          GoodMember(schema, node, path, v, n, i, registry);
        }
      case _ =>
    }
  }

  lemma {:induction false} GoodElement(schema: Schema, node: Node, path: Text, v: JSON, n: nat, i: nat,
                                       registry: seq<Entry>)
    requires IsPlain(node) && v.Arr? && i < |v.items|
    requires RoutesGood(schema, node, path, registry)
    requires WellFormed(v) && AcceptsWithin(schema, node, v, n)
    ensures ValueDocumented(v.items[i], ItemPath(path), registry)
    decreases v, 0
  {
    if node.items.Some? {
      LeadGood(schema, node, path, IntoItems, registry);
      assert AcceptsFully(schema, node.items.value, v.items[i]);
      var m: nat :| AcceptsWithin(schema, node.items.value, v.items[i], m);
      GoodRoutesDocument(schema, node.items.value, ItemPath(path), v.items[i], m, registry);
    } else {
      assert GoodPlace(schema, Destination(schema, node, path, []), registry);
      StaysUnder(path, Ascii("[]"), registry);
      BelowOpen(v.items[i], ItemPath(path), registry);
    }
  }

  lemma {:induction false} GoodMember(schema: Schema, node: Node, path: Text, v: JSON, n: nat, i: nat,
                                      registry: seq<Entry>)
    requires IsPlain(node) && v.Obj? && i < |v.members|
    requires RoutesGood(schema, node, path, registry)
    requires WellFormed(v) && AcceptsWithin(schema, node, v, n)
    ensures ValueDocumented(v.members[i].value, KeyPath(path, v.members[i].key), registry)
    decreases v, 0
  {
    var m := v.members[i];
    assert AcceptsMember(schema, node, m);
    match FindProperty(PropertiesOf(node), m.key)
    case Some(child) =>
      LeadGood(schema, node, path, IntoMember(m.key), registry);
      assert AcceptsFully(schema, child, m.value);
      var k: nat :| AcceptsWithin(schema, child, m.value, k);
      GoodRoutesDocument(schema, child, KeyPath(path, m.key), m.value, k, registry);
    case None =>
      assert GoodPlace(schema, Destination(schema, node, path, []), registry);
      MemberUnderOpen(path, m.key, registry);
      BelowOpen(m.value, KeyPath(path, m.key), registry);
  }

  // ---------------------------------------------------------------------
  // What the walk can vouch for
  // ---------------------------------------------------------------------

  /** Objects with unlisted members are at open entries or below, and what the walk does not enter is below one. */
  ghost predicate Opened(w: Walk, registry: seq<Entry>)
    requires w.Walked?
  {
    && (forall path :: path in w.open ==> OpenAt(path, registry))
    && (forall path :: path in w.loose ==> UnderOpen(path, registry))
  }

  /** The walk was never cut, its paths are in the registry, and what it left open is open there. */
  ghost predicate CoveredBy(w: Walk, registry: seq<Entry>) {
    w.Walked? && !w.cut && w.paths <= RegistryPaths(registry) && Opened(w, registry)
  }

  lemma {:induction false} FoundProperty(properties: seq<Property>, key: Text) returns (i: nat)
    requires FindProperty(properties, key).Some?
    ensures i < |properties| && properties[i].key == key && properties[i].node == FindProperty(properties, key).value
  {
    var last := |properties| - 1;
    if properties[last].key == key {
      i := last;
    } else {
      i := FoundProperty(properties[..last], key);
    }
  }

  lemma {:induction false} CoveredDocument(schema: Schema, node: Node, path: Text, stack: seq<Text>, v: JSON, n: nat,
                                           registry: seq<Entry>)
    requires CoveredBy(WalkNode(schema, node, path, stack), registry) && AcceptsWithin(schema, node, v, n)
    ensures ValueDocumented(v, path, registry)
    decreases v, 1, n
  {
    if IsReference(node) {
      var ref := node.ref.value;
      FollowingUsesUp(schema, stack, ref);
      CoveredDocument(schema, ResolveRef(schema, ref).value, path, stack + [ref], v, n - 1, registry);
    } else if IsLoose(node) {
      BelowOpen(v, path, registry);
    } else {
      assert path in RegistryPaths(registry);
      match v
      case Arr(items) =>
        forall i | 0 <= i < |items| ensures ValueDocumented(items[i], ItemPath(path), registry) {
          CoveredElement(schema, node, path, stack, v, n, i, registry);
        }
      case Obj(members) =>
        forall i | 0 <= i < |members|
          ensures ValueDocumented(members[i].value, KeyPath(path, members[i].key), registry)
        {
          CoveredMember(schema, node, path, stack, v, n, i, registry);
        }
      case _ =>
    }
  }

  /** A container at a node the walk enters is of the node's own type. */
  lemma {:induction false} EnteredIsTyped(schema: Schema, node: Node, v: JSON, n: nat)
    requires !IsReference(node) && !IsLoose(node) && AcceptsWithin(schema, node, v, n)
    ensures (v.Arr? ==> node.kind.ArrayType?) && (v.Obj? ==> node.kind.ObjectType?)
  {
    if node.kind.Untyped? {
      var c :| c in node.constants.value && Same(v, c);
      assert IsScalar(c);
    }
  }

  lemma {:induction false} CoveredElement(schema: Schema, node: Node, path: Text, stack: seq<Text>, v: JSON, n: nat,
                                          i: nat, registry: seq<Entry>)
    requires !IsReference(node) && !IsLoose(node) && v.Arr? && i < |v.items|
    requires CoveredBy(WalkNode(schema, node, path, stack), registry) && AcceptsWithin(schema, node, v, n)
    ensures ValueDocumented(v.items[i], ItemPath(path), registry)
    decreases v, 0
  {
    EnteredIsTyped(schema, node, v, n);
    assert AcceptsFully(schema, node.items.value, v.items[i]);
    var m: nat :| AcceptsWithin(schema, node.items.value, v.items[i], m);
    CoveredDocument(schema, node.items.value, ItemPath(path), stack, v.items[i], m, registry);
  }

  lemma {:induction false} CoveredMember(schema: Schema, node: Node, path: Text, stack: seq<Text>, v: JSON, n: nat,
                                         i: nat, registry: seq<Entry>)
    requires !IsReference(node) && !IsLoose(node) && v.Obj? && i < |v.members|
    requires CoveredBy(WalkNode(schema, node, path, stack), registry) && AcceptsWithin(schema, node, v, n)
    ensures ValueDocumented(v.members[i].value, KeyPath(path, v.members[i].key), registry)
    decreases v, 0
  {
    EnteredIsTyped(schema, node, v, n);
    var m := v.members[i];
    assert AcceptsMember(schema, node, m);
    match FindProperty(PropertiesOf(node), m.key)
    case Some(child) =>
      var p := FoundProperty(node.properties.list, m.key);
      PropertyWalk(schema, node.properties.list, path, stack, p);
      assert AcceptsFully(schema, child, m.value);
      var k: nat :| AcceptsWithin(schema, child, m.value, k);
      CoveredDocument(schema, child, KeyPath(path, m.key), stack, m.value, k, registry);
    case None =>
      assert OpenAt(path, registry);
      MemberUnderOpen(path, m.key, registry);
      BelowOpen(m.value, KeyPath(path, m.key), registry);
  }

  /** When the comparison passes, the walk was not cut and what it leaves open is open in the registry, no document
      the schema accepts is ever reported. */
  lemma {:induction false} SchemaWalkSound(schema: Schema, registry: seq<Entry>, document: JSON)
    requires CoveredBy(WalkNode(schema, schema.root, ROOT, []), registry)
    requires AcceptsFully(schema, schema.root, document)
    ensures ValueDocumented(document, ROOT, registry)
  {
    var n: nat :| AcceptsWithin(schema, schema.root, document, n);
    CoveredDocument(schema, schema.root, ROOT, [], document, n, registry);
  }

  // ---------------------------------------------------------------------
  // When the guard never cuts
  // ---------------------------------------------------------------------

  /** Every reference inside the node ranks below `bound`. */
  ghost predicate RefsBelow(node: Node, rank: Text -> nat, bound: nat) {
    && (node.ref.Some? ==> rank(node.ref.value) < bound)
    && (node.items.Some? ==> RefsBelow(node.items.value, rank, bound))
    && (node.properties.Listed? ==>
          forall i :: 0 <= i < |node.properties.list| ==> RefsBelow(node.properties.list[i].node, rank, bound))
  }

  /** The reference graph has no cycle: each definition refers to lower-ranked ones only. */
  ghost predicate RefsAcyclic(schema: Schema, rank: Text -> nat) {
    forall name :: name in schema.defs ==> RefsBelow(schema.defs[name], rank, rank(DEFS_PREFIX + name))
  }

  /** Along an acyclic reference graph no reference is met twice, so the walk is never cut. */
  lemma {:induction false} AcyclicNeverCut(schema: Schema, rank: Text -> nat, node: Node, path: Text, stack: seq<Text>,
                                           bound: nat)
    requires RefsAcyclic(schema, rank) && RefsBelow(node, rank, bound)
    requires forall r :: r in stack ==> rank(r) >= bound
    ensures WalkNode(schema, node, path, stack).Walked? ==> !WalkNode(schema, node, path, stack).cut
    decreases Unvisited(schema, stack), node
  {
    if IsReference(node) {
      var ref := node.ref.value;
      assert ref !in stack;
      var target := ResolveRef(schema, ref);
      if target.Some? {
        FollowingUsesUp(schema, stack, ref);
        assert ref == DEFS_PREFIX + ref[|DEFS_PREFIX|..];
        AcyclicNeverCut(schema, rank, target.value, path, stack + [ref], rank(ref));
      }
    } else if node.kind.ArrayType? {
      if node.items.Some? {
        AcyclicNeverCut(schema, rank, node.items.value, ItemPath(path), stack, bound);
      }
    } else if node.properties.Listed? {
      AcyclicPropertiesNeverCut(schema, rank, node.properties.list, path, stack, bound);
    }
  }

  lemma {:induction false} AcyclicPropertiesNeverCut(schema: Schema, rank: Text -> nat, properties: seq<Property>,
                                                     path: Text, stack: seq<Text>, bound: nat)
    requires RefsAcyclic(schema, rank)
    requires forall i :: 0 <= i < |properties| ==> RefsBelow(properties[i].node, rank, bound)
    requires forall r :: r in stack ==> rank(r) >= bound
    ensures WalkProperties(schema, properties, path, stack).Walked? ==>
              !WalkProperties(schema, properties, path, stack).cut
    decreases Unvisited(schema, stack), properties
  {
    if properties != [] {
      var last := |properties| - 1;
      AcyclicPropertiesNeverCut(schema, rank, properties[..last], path, stack, bound);
      AcyclicNeverCut(schema, rank, properties[last].node, KeyPath(path, properties[last].key), stack, bound);
    }
  }

  /** Soundness as a maintainer checks it: acyclic references, a passing comparison, open objects marked. */
  lemma {:induction false} AcyclicSchemaSound(schema: Schema, rank: Text -> nat, registry: seq<Entry>, document: JSON)
    requires RefsAcyclic(schema, rank) && exists bound: nat :: RefsBelow(schema.root, rank, bound)
    requires var w := WalkNode(schema, schema.root, ROOT, []);
             w.Walked? && w.paths == RegistryPaths(registry) && Opened(w, registry)
    requires AcceptsFully(schema, schema.root, document)
    ensures ValueDocumented(document, ROOT, registry)
  {
    var bound: nat :| RefsBelow(schema.root, rank, bound);
    AcyclicNeverCut(schema, rank, schema.root, ROOT, [], bound);
    SchemaWalkSound(schema, registry, document);
  }

  /** On an acyclic schema whose open objects are marked, documents the schema accepts never make the
      check fail: it passes exactly when the registry lists the schema's paths. */
  lemma {:induction false} AlignmentIsRegistryAgreement(schema: Schema, rank: Text -> nat, registry: seq<Entry>,
                                                        documents: seq<JSON>)
    requires RefsAcyclic(schema, rank) && exists bound: nat :: RefsBelow(schema.root, rank, bound)
    requires var w := WalkNode(schema, schema.root, ROOT, []); w.Walked? ==> Opened(w, registry)
    requires forall i :: 0 <= i < |documents| ==> AcceptsFully(schema, schema.root, documents[i])
    ensures Aligned(schema, registry, documents) <==>
            var w := WalkNode(schema, schema.root, ROOT, []); w.Walked? && w.paths == RegistryPaths(registry)
  {
    var w := WalkNode(schema, schema.root, ROOT, []);
    if w.Walked? && w.paths == RegistryPaths(registry) {
      forall i | 0 <= i < |documents| ensures ValueDocumented(documents[i], ROOT, registry) {
        AcyclicSchemaSound(schema, rank, registry, documents[i]);
      }
    }
  }

  // ---------------------------------------------------------------------
  // A bad route has a document
  // ---------------------------------------------------------------------

  /** The value one move further out. */
  function Around(move: Move, below: JSON): JSON {
    match move
    case ToTarget => below
    case IntoItems => Arr([below])
    case IntoMember(key) => Obj([Member(key, below)])
  }

  /** The document that goes the way of the moves and ends in `leaf`. */
  function DocumentAt(moves: seq<Move>, leaf: JSON): JSON {
    if moves == [] then leaf else Around(moves[0], DocumentAt(moves[1..], leaf))
  }

  /** Putting one move in front of an accepted value. */
  lemma {:induction false} AroundFits(schema: Schema, node: Node, path: Text, move: Move, below: JSON)
    requires Lead(schema, node, path, move).Place?
    requires Fits(schema, Lead(schema, node, path, move).node, below)
    ensures Fits(schema, node, Around(move, below))
  {
    var next := Lead(schema, node, path, move).node;
    match move
    case ToTarget =>
      assert AcceptsFully(schema, next, below);
      var n: nat :| AcceptsWithin(schema, next, below, n);
      assert AcceptsWithin(schema, node, below, n + 1);
    case IntoItems =>
      assert AcceptsWithin(schema, node, Arr([below]), 0);
    case IntoMember(key) =>
      assert AcceptsMember(schema, node, Member(key, below));
      assert AcceptsWithin(schema, node, Obj([Member(key, below)]), 0);
  }

  lemma {:induction false} DocumentFits(schema: Schema, node: Node, path: Text, moves: seq<Move>, leaf: JSON)
    requires Destination(schema, node, path, moves).Place?
    requires Fits(schema, Destination(schema, node, path, moves).node, leaf)
    ensures Fits(schema, node, DocumentAt(moves, leaf))
    decreases |moves|
  {
    if moves != [] {
      var next := Lead(schema, node, path, moves[0]);
      DocumentFits(schema, next.node, next.path, moves[1..], leaf);
      AroundFits(schema, node, path, moves[0], DocumentAt(moves[1..], leaf));
    }
  }

  lemma {:induction false} LeafDocumented(schema: Schema, node: Node, path: Text, moves: seq<Move>, leaf: JSON,
                                          registry: seq<Entry>)
    requires Destination(schema, node, path, moves).Place?
    requires ValueDocumented(DocumentAt(moves, leaf), path, registry)
    ensures ValueDocumented(leaf, Destination(schema, node, path, moves).path, registry)
    decreases |moves|
  {
    if moves != [] {
      var next := Lead(schema, node, path, moves[0]);
      var below := DocumentAt(moves[1..], leaf);
      match moves[0] {
        case ToTarget =>
        case IntoItems => assert Arr([below]).items[0] == below;
        case IntoMember(key) => assert Obj([Member(key, below)]).members[0].value == below;
      }
      LeafDocumented(schema, next.node, next.path, moves[1..], leaf, registry);
    }
  }

  // ---------------------------------------------------------------------
  // Values for the end of a route
  // ---------------------------------------------------------------------

  /** The simplest value a plain node accepts. */
  function BaseValue(node: Node): JSON {
    match node.kind
    case ObjectType => Obj([])
    case ArrayType => Arr([])
    case _ => Null
  }

  lemma {:induction false} BaseFits(schema: Schema, node: Node)
    requires IsPlain(node)
    ensures Fits(schema, node, BaseValue(node))
  {
    assert AcceptsWithin(schema, node, BaseValue(node), 0);
  }

  function Longest(registry: seq<Entry>): nat {
    if registry == [] then 0 else |registry[0].path| + Longest(registry[1..])
  }

  lemma {:induction false} NoLonger(registry: seq<Entry>, e: Entry)
    requires e in registry
    ensures |e.path| <= Longest(registry)
  {
    if e != registry[0] {
      NoLonger(registry[1..], e);
    }
  }

  function LongestKey(properties: seq<Property>): nat {
    if properties == [] then 0 else LongestKey(properties[..|properties| - 1]) + |properties[|properties| - 1].key|
  }

  lemma {:induction false} NotListed(properties: seq<Property>, key: Text)
    requires |key| > LongestKey(properties)
    ensures FindProperty(properties, key).None?
  {
    if properties != [] {
      NotListed(properties[..|properties| - 1], key);
    }
  }

  /** A name no registry entry and no property has: many letters, no dot. */
  function FreshKey(n: nat): (key: Text)
    ensures |key| == n + 1 && 0x2E !in key
  {
    seq(n + 1, _ => 0x61)
  }

  /** Behind a path, text without dots leaves the dots where they were. */
  lemma {:induction false} DotBefore(path: Text, more: Text, prefix: Text)
    requires 0x2E !in more && prefix + [0x2E] <= path + more
    ensures prefix + [0x2E] <= path
  {
    var whole := path + more;
    assert whole[|prefix|] == (prefix + [0x2E])[|prefix|];
    assert |prefix| < |path|;
    assert whole[..|prefix| + 1] == path[..|prefix| + 1];
  }

  /** Behind a path and text without dots, too long for any entry, only an open entry above the path documents. */
  lemma {:induction false} LongUndocumented(path: Text, more: Text, registry: seq<Entry>)
    requires 0x2E !in more && |more| > Longest(registry) && Documented(path + more, registry)
    ensures UnderOpen(path, registry)
  {
    if path + more in RegistryPaths(registry) {
      var e :| e in registry && e.path == path + more;
      NoLonger(registry, e);
      assert false;
    }
    var e :| e in registry && e.openChildren && e.path + [0x2E] <= path + more;
    DotBefore(path, more, e.path);
  }

  /** Under a fresh name nothing is documented unless the path itself is at an open entry or below. */
  lemma {:induction false} FreshUndocumented(path: Text, n: nat, registry: seq<Entry>)
    requires n >= Longest(registry) && Documented(KeyPath(path, FreshKey(n)), registry)
    ensures OpenAt(path, registry)
  {
    assert KeyPath(path, FreshKey(n)) == path + [0x2E] + FreshKey(n);
    LongUndocumented(path + [0x2E], FreshKey(n), registry);
    var e :| e in registry && e.openChildren && e.path + [0x2E] <= path + [0x2E];
    if |e.path| == |path| {
      assert (e.path + [0x2E])[..|path|] == (path + [0x2E])[..|path|];
      assert e.path == path;
    } else {
      assert (path + [0x2E])[..|e.path| + 1] == path[..|e.path| + 1];
    }
  }

  /** Arrays inside arrays, with null at the bottom. */
  function Nested(depth: nat): JSON {
    if depth == 0 then Null else Arr([Nested(depth - 1)])
  }

  function Brackets(depth: nat): (r: Text)
    ensures |r| == 2 * depth && 0x2E !in r
  {
    if depth == 0 then [] else Ascii("[]") + Brackets(depth - 1)
  }

  lemma {:induction false} OneMorePair(path: Text, depth: nat)
    ensures ItemPath(path) + Brackets(depth) == path + Brackets(depth + 1)
  {
    Regroup(path, Ascii("[]"), Brackets(depth));
  }

  lemma {:induction false} NestedDocumented(path: Text, depth: nat, registry: seq<Entry>)
    requires ValueDocumented(Nested(depth), path, registry)
    ensures Documented(path + Brackets(depth), registry)
    decreases depth
  {
    if depth == 0 {
      assert path + Brackets(0) == path;
    } else {
      assert Nested(depth).items[0] == Nested(depth - 1);
      NestedDocumented(ItemPath(path), depth - 1, registry);
      OneMorePair(path, depth - 1);
    }
  }

  lemma {:induction false} NestedIsWellFormed(depth: nat)
    ensures WellFormed(Nested(depth))
  {
    if depth > 0 {
      NestedIsWellFormed(depth - 1);
    }
  }

  /** A plain node whose path is not as it must be accepts a value that is reported there. */
  lemma {:induction false} PlainHasValue(schema: Schema, node: Node, path: Text, registry: seq<Entry>)
    returns (leaf: JSON)
    requires IsPlain(node) && !GoodNode(schema, node, path, registry)
    ensures Fits(schema, node, leaf) && !ValueDocumented(leaf, path, registry)
  {
    if !Documented(path, registry) {
      leaf := BaseValue(node);
      BaseFits(schema, node);
    } else if AdmitsObjects(node) && node.additional != Some(false) && !OpenAt(path, registry) {
      var n := Longest(registry) + LongestKey(PropertiesOf(node));
      var m := Member(FreshKey(n), Null);
      leaf := Obj([m]);
      NotListed(PropertiesOf(node), FreshKey(n));
      assert AcceptsMember(schema, node, m);
      assert AcceptsWithin(schema, node, leaf, 0);
      if ValueDocumented(leaf, path, registry) {
        assert ValueDocumented(leaf.members[0].value, KeyPath(path, leaf.members[0].key), registry);
        FreshUndocumented(path, n, registry);
      }
    } else {
      var depth := Longest(registry) + 1;
      leaf := Nested(depth);
      NestedIsWellFormed(depth);
      assert AcceptsWithin(schema, node, leaf, 0);
      if ValueDocumented(leaf, path, registry) {
        NestedDocumented(path, depth, registry);
        LongUndocumented(path, Brackets(depth), registry);
      }
    }
  }

  // ---------------------------------------------------------------------
  // The exact condition
  // ---------------------------------------------------------------------

  /** No document the schema accepts is ever reported. */
  ghost predicate EveryDocumentPasses(schema: Schema, registry: seq<Entry>) {
    forall document :: Fits(schema, schema.root, document) ==> ValueDocumented(document, ROOT, registry)
  }

  lemma {:induction false} BadRouteReported(schema: Schema, moves: seq<Move>, registry: seq<Entry>)
    requires !GoodPlace(schema, Destination(schema, schema.root, ROOT, moves), registry)
    ensures !EveryDocumentPasses(schema, registry)
  {
    var end := Destination(schema, schema.root, ROOT, moves);
    var leaf: JSON;
    if end.node.constants.Some? {
      leaf :| leaf in end.node.constants.value && Fits(schema, end.node, leaf)
              && !ValueDocumented(leaf, end.path, registry);
    } else {
      leaf := PlainHasValue(schema, end.node, end.path, registry);
    }
    DocumentFits(schema, schema.root, ROOT, moves, leaf);
    var document := DocumentAt(moves, leaf);
    if ValueDocumented(document, ROOT, registry) {
      LeafDocumented(schema, schema.root, ROOT, moves, leaf, registry);
    }
  }

  /** The registry vouches for every document of a schema, whatever the schema, if and only if every route through
      it, references followed any number of times, ends at a place that is as `GoodNode` says. */
  lemma {:induction false} DocumentsPassExactly(schema: Schema, registry: seq<Entry>)
    ensures EveryDocumentPasses(schema, registry) <==> RoutesGood(schema, schema.root, ROOT, registry)
  {
    if RoutesGood(schema, schema.root, ROOT, registry) {
      forall document | Fits(schema, schema.root, document) ensures ValueDocumented(document, ROOT, registry) {
        assert AcceptsFully(schema, schema.root, document);
        var n: nat :| AcceptsWithin(schema, schema.root, document, n);
        GoodRoutesDocument(schema, schema.root, ROOT, document, n, registry);
      }
    } else {
      var moves :| !GoodPlace(schema, Destination(schema, schema.root, ROOT, moves), registry);
      BadRouteReported(schema, moves, registry);
    }
  }

  // ---------------------------------------------------------------------
  // Recursive schemas
  // ---------------------------------------------------------------------

  lemma {:induction false} DestinationOfBoth(schema: Schema, node: Node, path: Text, a: seq<Move>, b: seq<Move>)
    requires Destination(schema, node, path, a).Place?
    ensures var middle := Destination(schema, node, path, a);
            Destination(schema, node, path, a + b) == Destination(schema, middle.node, middle.path, b)
    decreases |a|
  {
    if a == [] {
      assert a + b == b;
    } else {
      var next := Lead(schema, node, path, a[0]);
      assert (a + b)[0] == a[0] && (a + b)[1..] == a[1..] + b;
      DestinationOfBoth(schema, next.node, next.path, a[1..], b);
    }
  }

  /** Moves spell the same behind any path. */
  lemma {:induction false} DestinationBehind(schema: Schema, node: Node, before: Text, path: Text, moves: seq<Move>)
    requires Destination(schema, node, path, moves).Place?
    ensures var end := Destination(schema, node, path, moves);
            Destination(schema, node, before + path, moves) == Place(end.node, before + end.path)
    decreases |moves|
  {
    if moves != [] {
      var next := Lead(schema, node, path, moves[0]);
      match moves[0] {
        case ToTarget =>
        case IntoItems => Regroup(before, path, Ascii("[]"));
        case IntoMember(key) => Regroup(before, path, [0x2E] + key);
      }
      DestinationBehind(schema, next.node, before, next.path, moves[1..]);
    }
  }

  function Repeat(moves: seq<Move>, k: nat): seq<Move> {
    if k == 0 then [] else moves + Repeat(moves, k - 1)
  }

  /** Going round a loop again and again makes the path longer and longer. */
  lemma {:induction false} RoundAndRound(schema: Schema, node: Node, path: Text, loop: seq<Move>, more: Text, k: nat)
    requires Destination(schema, node, [], loop) == Place(node, more) && more != []
    ensures var end := Destination(schema, node, path, Repeat(loop, k));
            end.Place? && end.node == node && |end.path| >= |path| + k
    decreases k
  {
    if k > 0 {
      DestinationBehind(schema, node, path, [], loop);
      assert path + [] == path;
      DestinationOfBoth(schema, node, path, loop, Repeat(loop, k - 1));
      RoundAndRound(schema, node, path + more, loop, more, k - 1);
    }
  }

  /** A schema that comes back to one of its nodes along a longer path is beyond any registry without open
      entries: some document it accepts is reported, whatever the walk collected. */
  lemma {:induction false} RecursiveSchemaNeverPasses(schema: Schema, moves: seq<Move>, loop: seq<Move>, more: Text,
                                                      registry: seq<Entry>)
    requires var place := Destination(schema, schema.root, ROOT, moves);
             && place.Place? && place.node.ref.None?
             && Destination(schema, place.node, [], loop) == Place(place.node, more) && more != []
    requires forall e :: e in registry ==> !e.openChildren
    ensures !EveryDocumentPasses(schema, registry)
  {
    var place := Destination(schema, schema.root, ROOT, moves);
    var round := Repeat(loop, Longest(registry) + 1);
    RoundAndRound(schema, place.node, place.path, loop, more, Longest(registry) + 1);
    DestinationOfBoth(schema, schema.root, ROOT, moves, round);
    var end := Destination(schema, schema.root, ROOT, moves + round);
    forall e | e in registry ensures e.path != end.path {
      NoLonger(registry, e);
    }
    assert !Documented(end.path, registry);
    BadRouteReported(schema, moves + round, registry);
  }

  // ---------------------------------------------------------------------
  // A recursive schema, concretely
  // ---------------------------------------------------------------------

  function Child(): Text { Ascii("child") }

  function TreeRef(): Text { DEFS_PREFIX + Ascii("tree") }

  function Reference(ref: Text): Node {
    Node(Some(ref), Untyped, None, NoProperties, None, None)
  }

  /** A closed object with one property, `child`, that is a tree again. */
  function TreeNode(): Node {
    Node(None, ObjectType, None, Listed([Property(Child(), Reference(TreeRef()))]), Some(false), None)
  }

  function TreeSchema(): Schema {
    Schema(Reference(TreeRef()), map[Ascii("tree") := TreeNode()])
  }

  function TreeDocument(depth: nat): JSON {
    if depth == 0 then Obj([]) else Obj([Member(Child(), TreeDocument(depth - 1))])
  }

  /** A recursive schema passes its own comparison, yet its documents are reported: the guard drops every
      path below the repeated reference. */
  lemma {:induction false} RecursiveSchemaEscapes()
    ensures var w := WalkNode(TreeSchema(), TreeSchema().root, ROOT, []);
            w == Walked({ROOT}, {}, {}, true)
    ensures AcceptsFully(TreeSchema(), TreeSchema().root, TreeDocument(1))
    ensures !ValueDocumented(TreeDocument(1), ROOT, [Entry(ROOT, false)])
  {
    TreeResolves();
    TreeWalk();
    TreeAccepts();
    var document := TreeDocument(1);
    assert document.members[0] == Member(Child(), Obj([]));
    assert RegistryPaths([Entry(ROOT, false)]) == {ROOT};
    assert |KeyPath(ROOT, Child())| != |ROOT|;
    assert !Documented(KeyPath(ROOT, Child()), [Entry(ROOT, false)]);
    assert !ValueDocumented(document.members[0].value, KeyPath(ROOT, Child()), [Entry(ROOT, false)]);
  }

  lemma {:induction false} TreeResolves()
    ensures ResolveRef(TreeSchema(), TreeRef()) == Some(TreeNode())
  {
    assert TreeRef()[|DEFS_PREFIX|..] == Ascii("tree");
  }

  lemma {:induction false} TreeWalk()
    ensures WalkNode(TreeSchema(), TreeSchema().root, ROOT, []) == Walked({ROOT}, {}, {}, true)
  {
    TreeResolves();
    var schema, stack := TreeSchema(), [TreeRef()];
    var properties := TreeNode().properties.list;
    FollowingUsesUp(schema, [], TreeRef());
    assert [] + [TreeRef()] == stack;
    assert WalkNode(schema, Reference(TreeRef()), KeyPath(ROOT, Child()), stack) == Walked({}, {}, {}, true);
    assert properties[..0] == [];
    assert WalkProperties(schema, properties, ROOT, stack) == Walked({}, {}, {}, true);
    assert WalkNode(schema, TreeNode(), ROOT, stack) == Walked({ROOT}, {}, {}, true);
  }

  lemma {:induction false} TreeAccepts()
    ensures AcceptsFully(TreeSchema(), TreeSchema().root, TreeDocument(1))
  {
    TreeResolves();
    var schema, leaf := TreeSchema(), Obj([]);
    assert AcceptsWithin(schema, TreeNode(), leaf, 0);
    assert AcceptsWithin(schema, Reference(TreeRef()), leaf, 1);
    var document := TreeDocument(1);
    assert document == Obj([Member(Child(), leaf)]);
    assert FindProperty(PropertiesOf(TreeNode()), Child()) == Some(Reference(TreeRef()));
    assert AcceptsMember(schema, TreeNode(), document.members[0]);
    assert AcceptsWithin(schema, TreeNode(), document, 0);
    assert AcceptsWithin(schema, Reference(TreeRef()), document, 1);
  }
}
