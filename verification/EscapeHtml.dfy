/** `escapeHtml`: five chained global replacements, and the single pass they amount to; no later replacement
    touches what an earlier one put in, and one pass back restores the input. */
module EscapeHtml {
  import opened Utf16

  const AMP: CodeUnit := 0x26
  const LT: CodeUnit := 0x3C
  const GT: CodeUnit := 0x3E
  const QUOT: CodeUnit := 0x22
  const APOS: CodeUnit := 0x27

  // "&amp;" "&lt;" "&gt;" "&quot;" "&#039;"
  const AMP_ENTITY: Text := [0x26, 0x61, 0x6D, 0x70, 0x3B]
  const LT_ENTITY: Text := [0x26, 0x6C, 0x74, 0x3B]
  const GT_ENTITY: Text := [0x26, 0x67, 0x74, 0x3B]
  const QUOT_ENTITY: Text := [0x26, 0x71, 0x75, 0x6F, 0x74, 0x3B]
  const APOS_ENTITY: Text := [0x26, 0x23, 0x30, 0x33, 0x39, 0x3B]

  /** `replaceAll` of a one-character pattern. */
  function ReplaceAll(s: Text, u: CodeUnit, entity: Text): Text {
    if s == [] then [] else (if s[0] == u then entity else [s[0]]) + ReplaceAll(s[1..], u, entity)
  }

  /** The chain: ampersands first, then the others in turn. */
  function EscapeHtml(s: Text): Text { FromLt(ReplaceAll(s, AMP, AMP_ENTITY)) }

  function FromLt(s: Text): Text { FromGt(ReplaceAll(s, LT, LT_ENTITY)) }

  function FromGt(s: Text): Text { FromQuot(ReplaceAll(s, GT, GT_ENTITY)) }

  function FromQuot(s: Text): Text { FromApos(ReplaceAll(s, QUOT, QUOT_ENTITY)) }

  function FromApos(s: Text): Text { ReplaceAll(s, APOS, APOS_ENTITY) }

  /** What one character becomes. */
  function Entity(u: CodeUnit): Text {
    if u == 0x26 then Ascii("&amp;")
    else if u == 0x3C then Ascii("&lt;")
    else if u == 0x3E then Ascii("&gt;")
    else if u == 0x22 then Ascii("&quot;")
    else if u == 0x27 then Ascii("&#039;")
    else [u]
  }

  /** One left-to-right pass, each character on its own. */
  function EscapeOnce(s: Text): Text {
    if s == [] then [] else Entity(s[0]) + EscapeOnce(s[1..])
  }

  // ---------------------------------------------------------------------
  // The chain is one pass
  // ---------------------------------------------------------------------

  lemma {:induction false} ReplaceDistributes(a: Text, b: Text, u: CodeUnit, entity: Text)
    ensures ReplaceAll(a + b, u, entity) == ReplaceAll(a, u, entity) + ReplaceAll(b, u, entity)
  {
    if a == [] {
      assert a + b == b;
    } else {
      assert (a + b)[1..] == a[1..] + b;
      ReplaceDistributes(a[1..], b, u, entity);
    }
  }

  lemma {:induction false} NothingToReplace(s: Text, u: CodeUnit, entity: Text)
    requires u !in s
    ensures ReplaceAll(s, u, entity) == s
  {
    if s != [] {
      NothingToReplace(s[1..], u, entity);
      assert s == [s[0]] + s[1..];
    }
  }

  lemma {:induction false} ReplaceOne(u: CodeUnit, entity: Text)
    ensures ReplaceAll([u], u, entity) == entity
  {
    assert [u][1..] == [];
  }

  lemma {:induction false} EscapeDistributes(a: Text, b: Text)
    ensures EscapeHtml(a + b) == EscapeHtml(a) + EscapeHtml(b)
  {
    var a1, b1 := ReplaceAll(a, AMP, AMP_ENTITY), ReplaceAll(b, AMP, AMP_ENTITY);
    var a2, b2 := ReplaceAll(a1, LT, LT_ENTITY), ReplaceAll(b1, LT, LT_ENTITY);
    var a3, b3 := ReplaceAll(a2, GT, GT_ENTITY), ReplaceAll(b2, GT, GT_ENTITY);
    var a4, b4 := ReplaceAll(a3, QUOT, QUOT_ENTITY), ReplaceAll(b3, QUOT, QUOT_ENTITY);
    ReplaceDistributes(a, b, AMP, AMP_ENTITY);
    ReplaceDistributes(a1, b1, LT, LT_ENTITY);
    ReplaceDistributes(a2, b2, GT, GT_ENTITY);
    ReplaceDistributes(a3, b3, QUOT, QUOT_ENTITY);
    ReplaceDistributes(a4, b4, APOS, APOS_ENTITY);
  }

  lemma {:induction false} EntityTexts()
    ensures Ascii("&amp;") == AMP_ENTITY && Ascii("&lt;") == LT_ENTITY && Ascii("&gt;") == GT_ENTITY
    ensures Ascii("&quot;") == QUOT_ENTITY && Ascii("&#039;") == APOS_ENTITY
  {
  }

  lemma {:induction false} FromAposIsEntity(u: CodeUnit)
    requires u != AMP && u != LT && u != GT && u != QUOT
    ensures FromApos([u]) == Entity(u)
  {
    if u == APOS { ReplaceOne(u, APOS_ENTITY); } else { NothingToReplace([u], APOS, APOS_ENTITY); }
  }

  lemma {:induction false} FromQuotIsEntity(u: CodeUnit)
    requires u != AMP && u != LT && u != GT
    ensures FromQuot([u]) == Entity(u)
  {
    if u == QUOT {
      ReplaceOne(u, QUOT_ENTITY);
      NothingToReplace(QUOT_ENTITY, APOS, APOS_ENTITY);
      EntityTexts();
    } else {
      NothingToReplace([u], QUOT, QUOT_ENTITY);
      FromAposIsEntity(u);
    }
  }

  lemma {:induction false} BracketEntitiesKeepQuotes()
    ensures FromQuot(LT_ENTITY) == LT_ENTITY && FromQuot(GT_ENTITY) == GT_ENTITY
  {
    NothingToReplace(LT_ENTITY, QUOT, QUOT_ENTITY);
    NothingToReplace(LT_ENTITY, APOS, APOS_ENTITY);
    NothingToReplace(GT_ENTITY, QUOT, QUOT_ENTITY);
    NothingToReplace(GT_ENTITY, APOS, APOS_ENTITY);
  }

  lemma {:induction false} FromGtIsEntity(u: CodeUnit)
    requires u != AMP && u != LT
    ensures FromGt([u]) == Entity(u)
  {
    if u == GT {
      ReplaceOne(u, GT_ENTITY);
      BracketEntitiesKeepQuotes();
      EntityTexts();
    } else {
      NothingToReplace([u], GT, GT_ENTITY);
      FromQuotIsEntity(u);
    }
  }

  lemma {:induction false} FromLtIsEntity(u: CodeUnit)
    requires u != AMP
    ensures FromLt([u]) == Entity(u)
  {
    if u == LT {
      ReplaceOne(u, LT_ENTITY);
      NothingToReplace(LT_ENTITY, GT, GT_ENTITY);
      BracketEntitiesKeepQuotes();
      EntityTexts();
    } else {
      NothingToReplace([u], LT, LT_ENTITY);
      FromGtIsEntity(u);
    }
  }

  lemma {:induction false} AmpersandEntityStays()
    ensures FromLt(AMP_ENTITY) == AMP_ENTITY
  {
    NothingToReplace(AMP_ENTITY, LT, LT_ENTITY);
    NothingToReplace(AMP_ENTITY, GT, GT_ENTITY);
    AmpersandEntityKeepsQuotes();
  }

  lemma {:induction false} AmpersandEntityKeepsQuotes()
    ensures FromQuot(AMP_ENTITY) == AMP_ENTITY
  {
    NothingToReplace(AMP_ENTITY, QUOT, QUOT_ENTITY);
    NothingToReplace(AMP_ENTITY, APOS, APOS_ENTITY);
  }

  /** No later replacement touches what an earlier one inserted: only `&` occurs in the entities, and it went first. */
  lemma {:induction false} EscapeOneCharacter(u: CodeUnit)
    ensures EscapeHtml([u]) == Entity(u)
  {
    if u == AMP {
      ReplaceOne(u, AMP_ENTITY);
      AmpersandEntityStays();
      EntityTexts();
    } else {
      NothingToReplace([u], AMP, AMP_ENTITY);
      FromLtIsEntity(u);
    }
  }

  /** The five chained replacements are one character-by-character pass. */
  lemma {:induction false} ChainIsOnePass(s: Text)
    ensures EscapeHtml(s) == EscapeOnce(s)
  {
    if s != [] {
      ChainIsOnePass(s[1..]);
      EscapeOneCharacter(s[0]);
      EscapeDistributes([s[0]], s[1..]);
      assert s == [s[0]] + s[1..];
    }
  }

  // ---------------------------------------------------------------------
  // Decoding
  // ---------------------------------------------------------------------

  /** The entity at the front of `s`: its length and the character it stands for; length 0 if there is none. */
  function EntityAt(s: Text): (r: (nat, CodeUnit))
    ensures r.0 <= |s|
  {
    if Ascii("&amp;") <= s then (5, 0x26)
    else if Ascii("&lt;") <= s then (4, 0x3C)
    else if Ascii("&gt;") <= s then (4, 0x3E)
    else if Ascii("&quot;") <= s then (6, 0x22)
    else if Ascii("&#039;") <= s then (6, 0x27)
    else (0, 0)
  }

  /** One pass that turns the five entities back into characters. */
  function Unescape(s: Text): Text {
    if s == [] then []
    else
      var (n, u) := EntityAt(s);
      if n == 0 then [s[0]] + Unescape(s[1..]) else [u] + Unescape(s[n..])
  }

  lemma {:induction false} UnescapeEntity(u: CodeUnit, rest: Text)
    ensures Unescape(Entity(u) + rest) == [u] + Unescape(rest)
  {
    var s := Entity(u) + rest;
    if Entity(u) == [u] {
      assert s[0] == u && s[1..] == rest;
      assert EntityAt(s).0 == 0;
    } else {
      EntityAtFront(u, rest);
    }
  }

  lemma {:induction false} EntityAtFront(u: CodeUnit, rest: Text)
    requires Entity(u) != [u]
    ensures var s := Entity(u) + rest; EntityAt(s) == (|Entity(u)|, u) && s[|Entity(u)|..] == rest
  {
    var s := Entity(u) + rest;
    assert s[..|Entity(u)|] == Entity(u);
    assert Entity(u) <= s;
    assert s[1] == Entity(u)[1];
  }

  /** Decoding gives the input back, so escaping loses nothing. */
  lemma {:induction false} UnescapeUndoesEscape(s: Text)
    ensures Unescape(EscapeHtml(s)) == s
  {
    ChainIsOnePass(s);
    if s != [] {
      UnescapeUndoesEscape(s[1..]);
      ChainIsOnePass(s[1..]);
      UnescapeEntity(s[0], EscapeOnce(s[1..]));
      assert s == [s[0]] + s[1..];
    }
  }

  // ---------------------------------------------------------------------
  // What the output can hold
  // ---------------------------------------------------------------------

  /** A character of escaped text: never a raw bracket or quote, and an ampersand only at the start of an entity. */
  ghost predicate SafeAt(t: Text, i: nat)
    requires i < |t|
  {
    && t[i] != 0x3C && t[i] != 0x3E && t[i] != 0x22 && t[i] != 0x27
    && (t[i] == 0x26 ==> EntityAt(t[i..]).0 > 0)
  }

  lemma {:induction false} SafeBehind(front: Text, rest: Text, i: nat)
    requires |front| <= i < |front| + |rest| && SafeAt(rest, i - |front|)
    ensures SafeAt(front + rest, i)
  {
    assert (front + rest)[i] == rest[i - |front|];
    assert (front + rest)[i..] == rest[i - |front|..];
  }

  lemma {:induction false} SafeInFront(u: CodeUnit, rest: Text, i: nat)
    requires i < |Entity(u)|
    ensures SafeAt(Entity(u) + rest, i)
  {
    var t := Entity(u) + rest;
    assert t[i] == Entity(u)[i];
    if i == 0 {
      assert t[0..] == t;
      if Entity(u) != [u] {
        EntityAtFront(u, rest);
      }
    }
  }

  lemma {:induction false} EscapedIsSafe(s: Text)
    ensures forall i :: 0 <= i < |EscapeHtml(s)| ==> SafeAt(EscapeHtml(s), i)
  {
    ChainIsOnePass(s);
    if s != [] {
      var front, rest := Entity(s[0]), EscapeOnce(s[1..]);
      EscapedIsSafe(s[1..]);
      ChainIsOnePass(s[1..]);
      forall i | 0 <= i < |front + rest| ensures SafeAt(front + rest, i) {
        if i < |front| {
          SafeInFront(s[0], rest, i);
        } else {
          SafeBehind(front, rest, i);
        }
      }
    }
  }
}
