/** The appendix splice of the documentation generator: what a second run changes. */
module AppendixSplice {
  import opened Utf16

  const APPENDIX_START: Text := Ascii("<!-- FIELD-PATH-APPENDIX:START -->")
  const APPENDIX_END: Text := Ascii("<!-- FIELD-PATH-APPENDIX:END -->")
  const NEWLINE: CodeUnit := 0x0A

  /** White space and line terminators, as `trimEnd` takes them away. */
  predicate IsSpace(u: CodeUnit) {
    || 0x09 <= u <= 0x0D || u == 0x20 || u == 0xA0 || u == 0x1680 || 0x2000 <= u <= 0x200A
    || u == 0x2028 || u == 0x2029 || u == 0x202F || u == 0x205F || u == 0x3000 || u == 0xFEFF
  }

  function TrimEnd(t: Text): (r: Text)
    ensures r <= t
    ensures r != [] ==> !IsSpace(r[|r| - 1])
  {
    if t != [] && IsSpace(t[|t| - 1]) then TrimEnd(t[..|t| - 1]) else t
  }

  predicate OccursAt(t: Text, mark: Text, i: int) {
    0 <= i <= |t| - |mark| && t[i..i + |mark|] == mark
  }

  /** `indexOf`, searching from `from` on. */
  function IndexFrom(t: Text, mark: Text, from: nat): (r: int)
    ensures -1 <= r <= |t|
    decreases |t| - from
  {
    if from > |t| then -1
    else if OccursAt(t, mark, from) then from
    else IndexFrom(t, mark, from + 1)
  }

  function IndexOf(t: Text, mark: Text): int { IndexFrom(t, mark, 0) }

  lemma {:induction false} IndexFromIsFirst(t: Text, mark: Text, from: nat)
    ensures var r := IndexFrom(t, mark, from);
            && (r == -1 || (r >= from && OccursAt(t, mark, r)))
            && forall i :: from <= i && (r == -1 || i < r) ==> !OccursAt(t, mark, i)
    decreases |t| - from
  {
    if from <= |t| && !OccursAt(t, mark, from) {
      IndexFromIsFirst(t, mark, from + 1);
    }
  }

  /** `indexOf` is the first occurrence, or -1 when there is none. */
  lemma {:induction false} IndexOfIsFirst(t: Text, mark: Text, i: int)
    ensures IndexOf(t, mark) == i <==>
            (i == -1 && forall k :: !OccursAt(t, mark, k))
            || (i >= 0 && OccursAt(t, mark, i) && forall k :: 0 <= k < i ==> !OccursAt(t, mark, k))
  {
    IndexFromIsFirst(t, mark, 0);
  }

  predicate Replaces(t: Text) {
    IndexOf(t, APPENDIX_START) >= 0 && IndexOf(t, APPENDIX_END) >= IndexOf(t, APPENDIX_START)
  }

  /** The generated appendix: the start marker, anything at all, the end marker. */
  function Appendix(body: Text): Text { APPENDIX_START + body + APPENDIX_END }

  function Attach(text: Text, body: Text): Text {
    TrimEnd(text) + [NEWLINE, NEWLINE] + Appendix(body) + [NEWLINE]
  }

  /** One run over the specification text. */
  function Splice(t: Text, body: Text): Text {
    if Replaces(t) then Attach(t[..IndexOf(t, APPENDIX_START)], body) else Attach(t, body)
  }

  // ---------------------------------------------------------------------
  // Markers and white space
  // ---------------------------------------------------------------------

  /** What matters about a marker: it ends visibly and holds no line break. */
  predicate IsMarker(mark: Text) {
    mark != [] && !IsSpace(mark[|mark| - 1]) && NEWLINE !in mark
  }

  lemma {:induction false} MarkersAreMarkers()
    ensures IsMarker(APPENDIX_START) && IsMarker(APPENDIX_END)
  {
    assert |APPENDIX_START| == 34 && APPENDIX_START[33] == 0x3E;
    assert |APPENDIX_END| == 32 && APPENDIX_END[31] == 0x3E;
    assert forall i :: 0 <= i < 34 ==> APPENDIX_START[i] >= 0x20;
    assert forall i :: 0 <= i < 32 ==> APPENDIX_END[i] >= 0x20;
  }

  /** Dropping a trailing space drops no marker occurrence. */
  lemma {:induction false} MarkerBeforeSpace(t: Text, mark: Text, i: int)
    requires IsMarker(mark) && t != [] && IsSpace(t[|t| - 1])
    ensures OccursAt(t[..|t| - 1], mark, i) <==> OccursAt(t, mark, i)
  {
    var shorter := t[..|t| - 1];
    if OccursAt(t, mark, i) {
      assert t[i..i + |mark|][|mark| - 1] == t[i + |mark| - 1];
    }
    if 0 <= i && i + |mark| <= |shorter| {
      assert shorter[i..i + |mark|] == t[i..i + |mark|];
    }
  }

  /** Trimming removes no marker occurrence: each one ends visibly. */
  lemma {:induction false} TrimKeepsMarkers(t: Text, mark: Text, i: int)
    requires IsMarker(mark)
    ensures OccursAt(TrimEnd(t), mark, i) <==> OccursAt(t, mark, i)
  {
    if t != [] && IsSpace(t[|t| - 1]) {
      MarkerBeforeSpace(t, mark, i);
      TrimKeepsMarkers(t[..|t| - 1], mark, i);
    }
  }

  /** A marker occurrence lies before the inserted line breaks or after them, never across. */
  lemma {:induction false} NoMarkerAcross(before: Text, after: Text, mark: Text, i: int)
    requires IsMarker(mark)
    requires OccursAt(before + [NEWLINE, NEWLINE] + after, mark, i)
    ensures OccursAt(before, mark, i) || i >= |before| + 2
  {
    var t := before + [NEWLINE, NEWLINE] + after;
    forall k | i <= k < i + |mark| ensures t[k] != NEWLINE {
      assert t[i..i + |mark|][k - i] == t[k];
    }
    assert t[|before|] == NEWLINE && t[|before| + 1] == NEWLINE;
    if i + |mark| <= |before| {
      assert before[i..i + |mark|] == t[i..i + |mark|];
    }
  }

  lemma {:induction false} OccursBefore(before: Text, after: Text, mark: Text, i: int)
    requires OccursAt(before, mark, i)
    ensures OccursAt(before + [NEWLINE, NEWLINE] + after, mark, i)
  {
    var t := before + [NEWLINE, NEWLINE] + after;
    assert before[i..i + |mark|] == t[i..i + |mark|];
  }

  // ---------------------------------------------------------------------
  // Where the markers are after a run
  // ---------------------------------------------------------------------

  lemma {:induction false} OccursBehind(before: Text, mark: Text, after: Text)
    ensures OccursAt(before + mark + after, mark, |before|)
  {
  }

  /** The text a run attaches, seen from the line breaks on. */
  lemma {:induction false} AttachShape(text: Text, body: Text)
    ensures Attach(text, body) == TrimEnd(text) + [NEWLINE, NEWLINE] + (Appendix(body) + [NEWLINE])
  {
    Regroup(TrimEnd(text) + [NEWLINE, NEWLINE], Appendix(body), [NEWLINE]);
  }

  lemma {:induction false} AttachStart(text: Text, body: Text)
    ensures OccursAt(Attach(text, body), APPENDIX_START, |TrimEnd(text)| + 2)
  {
    var head, tail := TrimEnd(text) + [NEWLINE, NEWLINE], body + APPENDIX_END;
    Regroup(APPENDIX_START, body, APPENDIX_END);
    Regroup(head, APPENDIX_START, tail);
    Regroup(head + APPENDIX_START, tail, [NEWLINE]);
    OccursBehind(head, APPENDIX_START, tail + [NEWLINE]);
  }

  lemma {:induction false} AttachEnd(text: Text, body: Text)
    ensures OccursAt(Attach(text, body), APPENDIX_END, |TrimEnd(text)| + 2 + |APPENDIX_START| + |body|)
    ensures Attach(text, body) ==
            TrimEnd(text) + [NEWLINE, NEWLINE] + (APPENDIX_START + body) + APPENDIX_END + [NEWLINE]
  {
    var head := TrimEnd(text) + [NEWLINE, NEWLINE];
    Regroup(head, APPENDIX_START + body, APPENDIX_END);
    OccursBehind(head + (APPENDIX_START + body), APPENDIX_END, [NEWLINE]);
  }

  /** The first start marker after a run: the one the text already had, else the new one. */
  lemma {:induction false} StartAfterAttach(text: Text, body: Text)
    ensures IndexOf(Attach(text, body), APPENDIX_START) ==
            if IndexOf(text, APPENDIX_START) >= 0 then IndexOf(text, APPENDIX_START) else |TrimEnd(text)| + 2
  {
    MarkersAreMarkers();
    AttachShape(text, body);
    AttachStart(text, body);
    var out, found := Attach(text, body), IndexOf(text, APPENDIX_START);
    IndexOfIsFirst(text, APPENDIX_START, found);
    MarkersOfAttach(text, body, APPENDIX_START);
    if found >= 0 {
      IndexOfIsFirst(out, APPENDIX_START, found);
    } else {
      IndexOfIsFirst(out, APPENDIX_START, |TrimEnd(text)| + 2);
    }
  }

  /** Before the line breaks a run leaves exactly the marker occurrences the text had. */
  lemma {:induction false} MarkersOfAttach(text: Text, body: Text, mark: Text)
    requires IsMarker(mark)
    ensures forall k :: OccursAt(Attach(text, body), mark, k) ==> OccursAt(text, mark, k) || k >= |TrimEnd(text)| + 2
    ensures forall k :: OccursAt(text, mark, k) ==> OccursAt(Attach(text, body), mark, k) && k < |TrimEnd(text)|
  {
    var kept, after := TrimEnd(text), Appendix(body) + [NEWLINE];
    AttachShape(text, body);
    forall k | OccursAt(Attach(text, body), mark, k) ensures OccursAt(text, mark, k) || k >= |kept| + 2 {
      NoMarkerAcross(kept, after, mark, k);
      TrimKeepsMarkers(text, mark, k);
    }
    forall k | OccursAt(text, mark, k) ensures OccursAt(Attach(text, body), mark, k) && k < |kept| {
      TrimKeepsMarkers(text, mark, k);
      OccursBefore(kept, after, mark, k);
    }
  }

  /** The first end marker after a run: the one the text already had, else one behind the new start marker. */
  lemma {:induction false} EndAfterAttach(text: Text, body: Text)
    ensures var end := IndexOf(Attach(text, body), APPENDIX_END);
            if IndexOf(text, APPENDIX_END) >= 0 then end == IndexOf(text, APPENDIX_END)
            else end >= |TrimEnd(text)| + 2
  {
    MarkersAreMarkers();
    AttachEnd(text, body);
    var out := Attach(text, body);
    var found, end := IndexOf(text, APPENDIX_END), IndexOf(out, APPENDIX_END);
    IndexOfIsFirst(text, APPENDIX_END, found);
    IndexOfIsFirst(out, APPENDIX_END, end);
    MarkersOfAttach(text, body, APPENDIX_END);
    if found >= 0 {
      IndexOfIsFirst(out, APPENDIX_END, found);
    }
  }

  // ---------------------------------------------------------------------
  // A second run
  // ---------------------------------------------------------------------

  lemma {:induction false} TrimTwice(t: Text)
    ensures TrimEnd(TrimEnd(t) + [NEWLINE, NEWLINE]) == TrimEnd(t)
  {
    var kept := TrimEnd(t);
    var one, two := kept + [NEWLINE], kept + [NEWLINE, NEWLINE];
    assert two[..|two| - 1] == one && one[..|one| - 1] == kept;
    assert TrimEnd(two) == TrimEnd(one);
    assert TrimEnd(one) == TrimEnd(kept);
  }

  /** Attaching to a text without markers is undone and redone by the next run. */
  lemma {:induction false} AttachThenSplice(text: Text, body: Text)
    requires IndexOf(text, APPENDIX_START) == -1 && IndexOf(text, APPENDIX_END) == -1
    ensures Splice(Attach(text, body), body) == Attach(text, body)
  {
    StartAfterAttach(text, body);
    EndAfterAttach(text, body);
    AttachShape(text, body);
    assert Attach(text, body)[..|TrimEnd(text)| + 2] == TrimEnd(text) + [NEWLINE, NEWLINE];
    TrimTwice(text);
  }

  /** The part kept by a replacement holds no marker. */
  lemma {:induction false} KeptPartUnmarked(t: Text)
    requires Replaces(t)
    ensures var kept := t[..IndexOf(t, APPENDIX_START)];
            IndexOf(kept, APPENDIX_START) == -1 && IndexOf(kept, APPENDIX_END) == -1
  {
    var start := IndexOf(t, APPENDIX_START);
    IndexOfIsFirst(t, APPENDIX_START, start);
    IndexOfIsFirst(t, APPENDIX_END, IndexOf(t, APPENDIX_END));
    PrefixUnmarked(t, APPENDIX_START, start);
    PrefixUnmarked(t, APPENDIX_END, start);
  }

  lemma {:induction false} PrefixUnmarked(t: Text, mark: Text, n: nat)
    requires n <= |t| && mark != [] && forall k :: 0 <= k < n ==> !OccursAt(t, mark, k)
    ensures IndexOf(t[..n], mark) == -1
  {
    forall k ensures !OccursAt(t[..n], mark, k) {
      if OccursAt(t[..n], mark, k) {
        assert t[..n][k..k + |mark|] == t[k..k + |mark|];
        assert OccursAt(t, mark, k);
      }
    }
    IndexOfIsFirst(t[..n], mark, -1);
  }

  /** A run settles at once exactly when it replaced an appendix or the text had no marker at all. */
  lemma {:induction false} SpliceSettlesExactly(t: Text, body: Text)
    ensures Splice(Splice(t, body), body) == Splice(t, body) <==>
            Replaces(t) || (IndexOf(t, APPENDIX_START) < 0 && IndexOf(t, APPENDIX_END) < 0)
  {
    MarkersAreMarkers();
    if Replaces(t) {
      KeptPartUnmarked(t);
      AttachThenSplice(t[..IndexOf(t, APPENDIX_START)], body);
    } else if IndexOf(t, APPENDIX_START) < 0 && IndexOf(t, APPENDIX_END) < 0 {
      IndexIsMinusOne(t, APPENDIX_START);
      IndexIsMinusOne(t, APPENDIX_END);
      AttachThenSplice(t, body);
    } else if IndexOf(t, APPENDIX_END) < 0 {
      UnclosedShrinks(t, body);
    } else {
      StrayEndGrows(t, body);
    }
  }

  lemma {:induction false} IndexIsMinusOne(t: Text, mark: Text)
    requires IndexOf(t, mark) < 0
    ensures IndexOf(t, mark) == -1
  {
    IndexOfIsFirst(t, mark, IndexOf(t, mark));
  }

  /** A start marker without any end marker: the next run cuts the text at that marker and shortens it. */
  lemma {:induction false} UnclosedShrinks(t: Text, body: Text)
    requires IndexOf(t, APPENDIX_START) >= 0 && IndexOf(t, APPENDIX_END) < 0
    ensures !Replaces(t) && Replaces(Splice(t, body))
    ensures |Splice(Splice(t, body), body)| < |Splice(t, body)|
  {
    MarkersAreMarkers();
    var start := IndexOf(t, APPENDIX_START);
    IndexOfIsFirst(t, APPENDIX_START, start);
    TrimKeepsMarkers(t, APPENDIX_START, start);
    StartAfterAttach(t, body);
    EndAfterAttach(t, body);
    assert TrimEnd(Splice(t, body)[..start]) <= Splice(t, body)[..start];
  }

  /** With a start marker and no end marker the second run settles it. */
  lemma {:induction false} UnclosedSettlesInTwo(t: Text, body: Text)
    requires IndexOf(t, APPENDIX_START) >= 0 && IndexOf(t, APPENDIX_END) < 0
    ensures var once := Splice(t, body);
            var twice := Splice(once, body);
            twice != once && Splice(twice, body) == twice
  {
    UnclosedShrinks(t, body);
    SpliceSettlesExactly(Splice(t, body), body);
  }

  /** An end marker before every start marker is never removed: each run appends one more appendix to what
      the run before it left. */
  lemma {:induction false} StrayEndGrows(t: Text, body: Text)
    requires IndexOf(t, APPENDIX_END) >= 0 && !Replaces(t)
    ensures IndexOf(Splice(t, body), APPENDIX_END) >= 0 && !Replaces(Splice(t, body))
    ensures |Splice(Splice(t, body), body)| > |Splice(t, body)|
  {
    MarkersAreMarkers();
    var end := IndexOf(t, APPENDIX_END);
    IndexOfIsFirst(t, APPENDIX_END, end);
    TrimKeepsMarkers(t, APPENDIX_END, end);
    StartAfterAttach(t, body);
    EndAfterAttach(t, body);
    AttachEnd(t, body);
    TrimAttached(t, body);
  }

  /** The text after `n` runs. */
  function Runs(t: Text, body: Text, n: nat): Text {
    if n == 0 then t else Splice(Runs(t, body, n - 1), body)
  }

  lemma {:induction false} RunsStep(t: Text, body: Text, n: nat)
    ensures Runs(t, body, n + 1) == Splice(Runs(t, body, n), body)
  {
  }

  /** An end marker is there and a run would not replace anything. */
  predicate StrayEnd(t: Text) { IndexOf(t, APPENDIX_END) >= 0 && !Replaces(t) }

  lemma {:induction false} StrayEndStays(t: Text, body: Text, n: nat)
    requires StrayEnd(t)
    ensures StrayEnd(Runs(t, body, n))
  {
    if n > 0 {
      StrayEndStays(t, body, n - 1);
      RunStays(Runs(t, body, n - 1), body, Runs(t, body, n));
    }
  }

  lemma {:induction false} RunStays(before: Text, body: Text, after: Text)
    requires StrayEnd(before) && after == Splice(before, body)
    ensures StrayEnd(after)
  {
    OneMoreStays(before, body);
  }

  lemma {:induction false} OneMoreStays(t: Text, body: Text)
    requires StrayEnd(t)
    ensures StrayEnd(Splice(t, body)) && Splice(t, body) != t
    ensures |Splice(Splice(t, body), body)| > |Splice(t, body)|
  {
    StrayEndGrows(t, body);
    AttachChanges(t, body);
  }

  lemma {:induction false} AttachedEndsInBreak(text: Text, body: Text)
    ensures var out := Attach(text, body);
            |out| > |TrimEnd(text)| + 35 && out[|TrimEnd(text)| + 2] == APPENDIX_START[0] && !IsSpace(APPENDIX_START[0])
  {
    AttachStart(text, body);
    var k := |TrimEnd(text)| + 2;
    assert Attach(text, body)[k..k + |APPENDIX_START|][0] == Attach(text, body)[k];
  }

  lemma {:induction false} SpaceBehindTrim(t: Text, k: nat)
    requires |TrimEnd(t)| <= k < |t|
    ensures IsSpace(t[k])
  {
    if t != [] && IsSpace(t[|t| - 1]) && k < |t| - 1 {
      SpaceBehindTrim(t[..|t| - 1], k);
    }
  }

  /** Attaching an appendix always changes the text: the new marker stands where there was white space or nothing. */
  lemma {:induction false} AttachChanges(t: Text, body: Text)
    ensures Attach(t, body) != t
  {
    AttachedEndsInBreak(t, body);
    var k := |TrimEnd(t)| + 2;
    if k < |t| {
      SpaceBehindTrim(t, k);
    }
  }

  lemma {:induction false} LaterRunChanges(before: Text, body: Text, after: Text)
    requires StrayEnd(before) && after == Splice(before, body)
    ensures after != before
  {
    OneMoreStays(before, body);
  }

  lemma {:induction false} LaterRunGrows(first: Text, body: Text, before: Text, after: Text)
    requires StrayEnd(first) && before == Splice(first, body) && after == Splice(before, body)
    ensures |after| > |before|
  {
    OneMoreStays(first, body);
  }

  /** With an end marker before every start marker no number of runs settles: each run changes the text,
      and each run but the first makes it longer. */
  lemma {:induction false} StrayEndNeverSettles(t: Text, body: Text, n: nat)
    requires StrayEnd(t)
    ensures Runs(t, body, n + 1) != Runs(t, body, n)
    ensures |Runs(t, body, n + 2)| > |Runs(t, body, n + 1)|
  {
    StrayEndStays(t, body, n);
    RunsStep(t, body, n);
    RunsStep(t, body, n + 1);
    LaterRunChanges(Runs(t, body, n), body, Runs(t, body, n + 1));
    LaterRunGrows(Runs(t, body, n), body, Runs(t, body, n + 1), Runs(t, body, n + 2));
  }

  /** For example the bare end marker: its second run differs from its first. */
  lemma {:induction false} BareEndMarkerFails(body: Text)
    ensures Splice(Splice(APPENDIX_END, body), body) != Splice(APPENDIX_END, body)
  {
    IndexOfIsFirst(APPENDIX_END, APPENDIX_END, 0);
    IndexOfIsFirst(APPENDIX_END, APPENDIX_START, -1);
    assert |APPENDIX_START| == 34 && |APPENDIX_END| == 32;
    assert APPENDIX_END[0..0 + |APPENDIX_END|] == APPENDIX_END;
    StrayEndGrows(APPENDIX_END, body);
  }

  /** Trimming a freshly attached text takes away only its last line break. */
  lemma {:induction false} TrimAttached(t: Text, body: Text)
    ensures |TrimEnd(Attach(t, body))| == |Attach(t, body)| - 1
  {
    var once := Attach(t, body);
    var front := TrimEnd(t) + [NEWLINE, NEWLINE] + (APPENDIX_START + body);
    AttachEnd(t, body);
    assert once[..|once| - 1] == front + APPENDIX_END;
    EndsVisibly(front);
  }

  lemma {:induction false} EndsVisibly(front: Text)
    ensures TrimEnd(front + APPENDIX_END) == front + APPENDIX_END
  {
    MarkersAreMarkers();
    var t := front + APPENDIX_END;
    assert t[|t| - 1] == APPENDIX_END[|APPENDIX_END| - 1];
  }

  // ---------------------------------------------------------------------
  // What a run writes
  // ---------------------------------------------------------------------

  /** White space and line terminators of ECMAScript. */
  predicate Blank(u: CodeUnit) {
    u in {0x09, 0x0A, 0x0B, 0x0C, 0x0D, 0x20, 0xA0, 0x1680, 0x2000, 0x2001, 0x2002, 0x2003, 0x2004, 0x2005, 0x2006,
          0x2007, 0x2008, 0x2009, 0x200A, 0x2028, 0x2029, 0x202F, 0x205F, 0x3000, 0xFEFF}
  }

  /** `kept` is `t` without the blanks at its end. */
  ghost predicate Kept(kept: Text, t: Text) {
    && kept <= t && (kept != [] ==> !Blank(kept[|kept| - 1]))
    && forall i :: |kept| <= i < |t| ==> Blank(t[i])
  }

  predicate StandsAt(t: Text, mark: Text, i: nat) { i + |mark| <= |t| && t[i..i + |mark|] == mark }

  /** The first place where the mark stands. */
  ghost predicate FirstAt(t: Text, mark: Text, i: nat) {
    StandsAt(t, mark, i) && forall k: nat :: k < i ==> !StandsAt(t, mark, k)
  }

  /** An appendix begins at `start`: the first start marker, with the first end marker not before it. */
  ghost predicate AppendixAt(t: Text, open: Text, close: Text, start: nat) {
    FirstAt(t, open, start) && exists end: nat :: FirstAt(t, close, end) && start <= end
  }

  /** What a run keeps: the text before the appendix, or all of it where there is none. */
  ghost predicate KeptOf(kept: Text, t: Text, open: Text, close: Text) {
    if start: nat :| AppendixAt(t, open, close, start) then Kept(kept, t[..start]) else Kept(kept, t)
  }

  lemma {:induction false} BlankIsSpace(u: CodeUnit)
    ensures Blank(u) <==> IsSpace(u)
  {
  }

  lemma {:induction false} TrimIsKept(t: Text)
    ensures Kept(TrimEnd(t), t)
  {
    var kept := TrimEnd(t);
    if kept != [] {
      BlankIsSpace(kept[|kept| - 1]);
    }
    forall i | |kept| <= i < |t| ensures Blank(t[i]) {
      SpaceBehindTrim(t, i);
      BlankIsSpace(t[i]);
    }
  }

  lemma {:induction false} KeptIsTrim(kept: Text, t: Text)
    ensures Kept(kept, t) <==> kept == TrimEnd(t)
  {
    TrimIsKept(t);
    if Kept(kept, t) {
      var trimmed := TrimEnd(t);
      assert |kept| == |trimmed|;
      assert kept == t[..|kept|] && trimmed == t[..|trimmed|];
    }
  }

  lemma {:induction false} FirstIsIndex(t: Text, mark: Text, i: nat)
    ensures FirstAt(t, mark, i) <==> IndexOf(t, mark) == i
  {
    IndexOfIsFirst(t, mark, i);
    forall k: nat ensures StandsAt(t, mark, k) <==> OccursAt(t, mark, k) {
    }
  }

  lemma {:induction false} AppendixIsFound(t: Text, open: Text, close: Text, start: nat)
    ensures AppendixAt(t, open, close, start) <==> IndexOf(t, open) == start && IndexOf(t, close) >= start
  {
    FirstIsIndex(t, open, start);
    if IndexOf(t, close) >= 0 {
      FirstIsIndex(t, close, IndexOf(t, close));
    }
    if AppendixAt(t, open, close, start) {
      var end: nat :| FirstAt(t, close, end) && start <= end;
      FirstIsIndex(t, close, end);
    }
  }

  /** The one text a run keeps. */
  lemma {:induction false} KeptOfRun(t: Text, kept: Text, open: Text, close: Text)
    ensures var start := IndexOf(t, open);
            KeptOf(kept, t, open, close) <==>
            kept == TrimEnd(if start >= 0 && IndexOf(t, close) >= start then t[..start] else t)
  {
    var start := IndexOf(t, open);
    forall at: nat ensures AppendixAt(t, open, close, at) <==> start == at && IndexOf(t, close) >= at {
      AppendixIsFound(t, open, close, at);
    }
    if start >= 0 && IndexOf(t, close) >= start {
      assert AppendixAt(t, open, close, start);
      KeptIsTrim(kept, t[..start]);
    } else {
      KeptIsTrim(kept, t);
    }
  }

  /** A run writes what it keeps, an empty line, the appendix between its markers, and a line break. */
  lemma {:induction false} SpliceWrites(t: Text, body: Text, out: Text)
    ensures var open := Ascii("<!-- FIELD-PATH-APPENDIX:START -->");
            var close := Ascii("<!-- FIELD-PATH-APPENDIX:END -->");
            out == Splice(t, body) <==>
            exists kept :: KeptOf(kept, t, open, close)
                           && out == kept + [0x0A, 0x0A] + (open + body + close) + [0x0A]
  {
    var source := if Replaces(t) then t[..IndexOf(t, APPENDIX_START)] else t;
    forall kept ensures KeptOf(kept, t, APPENDIX_START, APPENDIX_END) <==> kept == TrimEnd(source) {
      KeptOfRun(t, kept, APPENDIX_START, APPENDIX_END);
    }
  }
}
