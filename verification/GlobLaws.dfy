/**
 * Glob patterns as a user reads them: ordinary characters stand for themselves,
 * and what each special character does.
 */
module GlobLaws {
  import opened Bytes
  import opened Glob

  lemma Specials()
    ensures [STAR] == Word("*") && [QUESTION] == Word("?") && [BACKSLASH] == Word("\\")
    ensures [OPEN] == Word("[") && [CLOSE] == Word("]") && [CARET] == Word("^") && [DASH] == Word("-")
  {
  }

  /** Without any character that opens something special. */
  predicate IsPlain(p: bytes) {
    forall i :: 0 <= i < |p| ==> p[i] != STAR && p[i] != QUESTION && p[i] != BACKSLASH && p[i] != OPEN
  }

  lemma StepOne(p: bytes, t: bytes)
    requires p != [] && !HeadOf(p).token.Star?
    ensures Matches(Tokens(p), t)
            <==> t != [] && Accepts(HeadOf(p).token, t[0]) && Matches(Tokens(p[HeadOf(p).width..]), t[1..])
  {
    hide HeadOf, Accepts;
    var h := HeadOf(p);
    assert Tokens(p)[0] == h.token && Tokens(p)[1..] == Tokens(p[h.width..]);
  }

  /** Ordinary characters, and then a pattern: the text begins with them, and the rest matches the pattern. */
  lemma {:induction false} PlainThen(p: bytes, q: bytes, t: bytes)
    requires IsPlain(p)
    ensures Matches(Tokens(p + q), t) <==> p <= t && Matches(Tokens(q), t[|p|..])
    decreases |p|
  {
    hide Matches, Tokens;
    if p == [] {
      assert p + q == q && t[0..] == t;
    } else {
      var all := p + q;
      assert all[0] == p[0] && HeadOf(all) == Head(Literal(p[0]), 1);
      StepOne(all, t);
      assert all[1..] == p[1..] + q;
      if t != [] && t[0] == p[0] {
        PlainThen(p[1..], q, t[1..]);
        assert p <= t <==> p[1..] <= t[1..] by {
          assert p == [p[0]] + p[1..] && t == [t[0]] + t[1..];
        }
        if p <= t {
          assert t[1..][|p| - 1..] == t[|p|..];
        }
      }
    }
  }

  lemma NothingLeftToMatch(t: bytes)
    ensures Matches(Tokens([]), t) <==> t == []
  {
  }

  /** A pattern without special characters matches itself and nothing else. */
  lemma PlainMatchesItself(p: bytes, t: bytes)
    requires IsPlain(p)
    ensures Matches(Tokens(p), t) <==> t == p
  {
    hide Matches, Tokens;
    PlainThen(p, [], t);
    assert p + [] == p;
    if p <= t {
      NothingLeftToMatch(t[|p|..]);
    }
  }

  /** A star matches anything, and after a prefix anything that begins with it. */
  lemma StarMatchesAll(p: bytes, t: bytes)
    requires IsPlain(p)
    ensures Matches(Tokens(Word("*")), t)
    ensures Matches(Tokens(p + Word("*")), t) <==> p <= t
  {
    Specials();
    hide Word;
    forall u: bytes
      ensures Matches(Tokens([STAR]), u)
    {
      AnyText(u);
    }
    hide Matches, Tokens;
    PlainThen(p, [STAR], t);
  }

  lemma AnyText(u: bytes)
    ensures Matches(Tokens([STAR]), u)
  {
    var p: bytes := [STAR];
    assert p[1..] == [] && Tokens(p) == [Star] + Tokens(p[1..]);
    assert u[|u|..] == [];
    assert Tokens(p)[1..] == [];
    assert Matches(Tokens(p)[1..], u[|u|..]);
  }

  /** A question mark matches any one byte. */
  lemma QuestionMatchesOne(q: bytes, t: bytes)
    ensures Matches(Tokens(Word("?") + q), t) <==> t != [] && Matches(Tokens(q), t[1..])
  {
    Specials();
    hide Word;
    StepOne([QUESTION] + q, t);
    assert ([QUESTION] + q)[1..] == q;
  }

  /** A backslash takes the special meaning from what follows it, and at the end matches nothing. */
  lemma EscapeMatches(b: byte, q: bytes, t: bytes)
    ensures Matches(Tokens(Word("\\") + [b] + q), t) <==> t != [] && t[0] == b && Matches(Tokens(q), t[1..])
    ensures !Matches(Tokens(Word("\\")), t)
  {
    Specials();
    hide Word;
    var p := [BACKSLASH] + [b] + q;
    StepOne(p, t);
    assert p[2..] == q;
    StepOne([BACKSLASH], t);
  }

  // ---------------------------------------------------------------- classes

  /** Members that are no ranges, and the closing bracket. */
  lemma {:induction false} ListedMembers(ms: bytes, q: bytes, c: byte)
    requires CLOSE !in ms && DASH !in ms
    ensures var m := ClassMembers(ms + [CLOSE] + q);
            m.Some? && m.value.width == |ms| + 1 && (InSpans(m.value.spans, c) <==> c in ms)
    decreases |ms|
  {
    hide InSpans;
    var p := ms + [CLOSE] + q;
    if ms == [] {
      assert p[0] == CLOSE;
      assert !InSpans([], c) by { NoSpans(c); }
    } else {
      var rest := ms[1..] + [CLOSE] + q;
      assert p[1..] == rest && p[0] == ms[0];
      assert |p| >= 2 && p[1] != DASH by { assert p[1] == rest[0]; }
      ListedMembers(ms[1..], q, c);
      var more := ClassMembers(rest).value.spans;
      MembersUnfold(p);
      FirstSpan(Span(ms[0], ms[0]), more, c);
    }
  }

  lemma NoSpans(c: byte)
    ensures !InSpans([], c)
  {
  }

  lemma FirstSpan(s: Span, more: seq<Span>, c: byte)
    ensures InSpans([s] + more, c) <==> s.lo <= c <= s.hi || InSpans(more, c)
  {
    var all := [s] + more;
    assert all[0] == s && forall i :: 0 <= i < |more| ==> all[i + 1] == more[i];
    if InSpans(more, c) {
      var i :| 0 <= i < |more| && more[i].lo <= c <= more[i].hi;
      assert all[i + 1].lo <= c <= all[i + 1].hi;
    }
  }

  /** What a class does with a byte: all its bytes are taken, and the byte is in it, or not in it after a caret. */
  lemma ClassHead(negated: bool, inner: bytes, c: byte)
    requires inner != [] && (!negated ==> inner[0] != CARET) && ClassMembers(inner).Some?
    ensures var p := (if negated then [OPEN, CARET] else [OPEN]) + inner;
            var m := ClassMembers(inner).value;
            && HeadOf(p).width == (if negated then 2 else 1) + m.width
            && (Accepts(HeadOf(p).token, c) <==> (InSpans(m.spans, c) <==> !negated))
            && !HeadOf(p).token.Star?
  {
    hide InSpans, ClassMembers;
    var open: bytes := if negated then [OPEN, CARET] else [OPEN];
    var p := open + inner;
    assert p[0] == OPEN && p[|open|..] == inner;
    assert p[1] == if negated then CARET else inner[0];
  }

  lemma ClassStep(negated: bool, inner: bytes, q: bytes, t: bytes)
    requires inner != [] && (!negated ==> inner[0] != CARET) && ClassMembers(inner).Some?
    requires inner[ClassMembers(inner).value.width..] == q
    ensures Matches(Tokens((if negated then [OPEN, CARET] else [OPEN]) + inner), t)
            <==> t != [] && (InSpans(ClassMembers(inner).value.spans, t[0]) <==> !negated) && Matches(Tokens(q), t[1..])
  {
    hide Matches, Tokens, Accepts, HeadOf, InSpans, ClassMembers;
    var open: bytes := if negated then [OPEN, CARET] else [OPEN];
    var p := open + inner;
    var c: byte := if t == [] then 0 else t[0];
    ClassHead(negated, inner, c);
    StepOne(p, t);
    var w := ClassMembers(inner).value.width;
    assert p[|open| + w..] == inner[w..];
  }

  /** A class of listed bytes, as in [abc] and [^abc], and then a pattern. */
  lemma ClassMatches(ms: bytes, q: bytes, t: bytes)
    requires CLOSE !in ms && DASH !in ms && CARET !in ms
    ensures var inner := ms + Word("]") + q;
            && (Matches(Tokens(Word("[") + inner), t) <==> t != [] && t[0] in ms && Matches(Tokens(q), t[1..]))
            && (Matches(Tokens(Word("[^") + inner), t) <==> t != [] && t[0] !in ms && Matches(Tokens(q), t[1..]))
  {
    Specials();
    assert Word("[^") == [OPEN, CARET];
    hide Word, Matches, Tokens, InSpans, ClassMembers;
    var inner := ms + [CLOSE] + q;
    assert inner[0] != CARET;
    ListedMembers(ms, q, if t == [] then 0 else t[0]);
    assert inner[|ms| + 1..] == q;
    ClassStep(false, inner, q, t);
    ClassStep(true, inner, q, t);
  }

  /** A range, as in [a-z] and [^a-z]. */
  lemma RangeMatches(lo: byte, hi: byte, q: bytes, t: bytes)
    requires lo != CLOSE && lo != CARET && hi != CLOSE
    ensures var inner := [lo, DASH, hi, CLOSE] + q;
            && (Matches(Tokens(Word("[") + inner), t) <==> t != [] && lo <= t[0] <= hi && Matches(Tokens(q), t[1..]))
            && (Matches(Tokens(Word("[^") + inner), t)
                <==> t != [] && !(lo <= t[0] <= hi) && Matches(Tokens(q), t[1..]))
  {
    Specials();
    assert Word("[^") == [OPEN, CARET];
    hide Word, Matches, Tokens, InSpans, ClassMembers;
    var inner := [lo, DASH, hi, CLOSE] + q;
    RangeMembers(lo, hi, q, if t == [] then 0 else t[0]);
    assert inner[4..] == q;
    ClassStep(false, inner, q, t);
    ClassStep(true, inner, q, t);
  }

  lemma RangeMembers(lo: byte, hi: byte, q: bytes, c: byte)
    requires lo != CLOSE && hi != CLOSE
    ensures var m := ClassMembers([lo, DASH, hi, CLOSE] + q);
            m.Some? && m.value.width == 4 && (InSpans(m.value.spans, c) <==> lo <= c <= hi)
  {
    hide InSpans;
    var p := [lo, DASH, hi, CLOSE] + q;
    MembersUnfold(p);
    assert p[3..] == [CLOSE] + q;
    assert ClassMembers(p[3..]) == Some(Members([], 1));
    FirstSpan(Span(lo, hi), [], c);
    NoSpans(c);
  }

  lemma {:induction false} NeverClosed(p: bytes)
    requires CLOSE !in p
    ensures ClassMembers(p) == None
    decreases |p|
  {
    if p != [] {
      MembersUnfold(p);
      NeverClosed(p[1..]);
      if |p| >= 3 {
        NeverClosed(p[3..]);
      }
    }
  }

  /** A class that is not closed matches nothing. */
  lemma UnclosedMatchesNothing(p: bytes, t: bytes)
    requires CLOSE !in p
    ensures !Matches(Tokens(Word("[") + p), t)
  {
    Specials();
    hide Word, Matches, Tokens;
    var all := [OPEN] + p;
    assert all[1..] == p;
    NeverClosed(p);
    if |p| > 0 {
      NeverClosed(p[1..]);
      assert all[2..] == p[1..];
    }
    StepOne(all, t);
  }
}
