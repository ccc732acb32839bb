/**
 * Glob patterns. `Matches` says what a pattern means, as a list of tokens in which
 * a star stands for any stretch of text; `GlobMatch` is the single loop that
 * remembers only its last star.
 */
module Glob {
  import opened Bytes

  const STAR: byte := 42
  const QUESTION: byte := 63
  const BACKSLASH: byte := 92
  const OPEN: byte := 91
  const CLOSE: byte := 93
  const CARET: byte := 94
  const DASH: byte := 45

  // ------------------------------------------------------------- meaning

  datatype Span = Span(lo: byte, hi: byte)

  datatype Token =
    | Star
    | AnyByte
    | Literal(b: byte)
    | OneOf(negated: bool, spans: seq<Span>)
    | Never

  /** The members of a class up to its closing bracket, and the bytes they take, bracket included. */
  datatype Members = Members(spans: seq<Span>, width: nat)

  function ClassMembers(p: bytes): (r: Option<Members>)
    ensures r.Some? ==> 0 < r.value.width <= |p|
  {
    if p == [] then None
    else if p[0] == CLOSE then Some(Members([], 1))
    else
      var ranged := |p| >= 3 && p[1] == DASH && p[2] != CLOSE;
      var n := if ranged then 3 else 1;
      Prepend([Span(p[0], if ranged then p[2] else p[0])], n, ClassMembers(p[n..]))
  }

  function Prepend(spans: seq<Span>, width: nat, more: Option<Members>): Option<Members> {
    match more
    case None => None
    case Some(m) => Some(Members(spans + m.spans, width + m.width))
  }

  /**
   * The first token of a non-empty pattern and the bytes it takes; a broken class
   * or a final backslash never matches.
   */
  datatype Head = Head(token: Token, width: nat)

  function HeadOf(p: bytes): (h: Head)
    requires p != []
    ensures 0 < h.width <= |p|
  {
    if p[0] == STAR then Head(Star, 1)
    else if p[0] == QUESTION then Head(AnyByte, 1)
    else if p[0] == BACKSLASH then (if |p| == 1 then Head(Never, 1) else Head(Literal(p[1]), 2))
    else if p[0] == OPEN then
      var skip := if |p| > 1 && p[1] == CARET then 2 else 1;
      match ClassMembers(p[skip..])
      case None => Head(Never, |p|)
      case Some(m) => Head(OneOf(skip == 2, m.spans), skip + m.width)
    else Head(Literal(p[0]), 1)
  }

  function Tokens(p: bytes): seq<Token> {
    if p == [] then [] else [HeadOf(p).token] + Tokens(p[HeadOf(p).width..])
  }

  predicate InSpans(spans: seq<Span>, c: byte) {
    exists i :: 0 <= i < |spans| && spans[i].lo <= c <= spans[i].hi
  }

  predicate Accepts(k: Token, c: byte) {
    match k
    case Star => false
    case AnyByte => true
    case Literal(b) => b == c
    case OneOf(negated, spans) => InSpans(spans, c) != negated
    case Never => false
  }

  /** A star takes any stretch, every other token one byte it accepts, and all text is used up. */
  ghost predicate Matches(ks: seq<Token>, t: bytes)
    decreases |ks|
  {
    if ks == [] then t == []
    else if ks[0].Star? then exists k :: 0 <= k <= |t| && Matches(ks[1..], t[k..])
    else t != [] && Accepts(ks[0], t[0]) && Matches(ks[1..], t[1..])
  }

  // -------------------------------------------------------- about meaning

  /** A star that matches further on also matches from here. */
  lemma StarReachesBack(ks: seq<Token>, t: bytes, a: nat, b: nat)
    requires ks != [] && ks[0].Star? && a <= b <= |t| && Matches(ks, t[b..])
    ensures Matches(ks, t[a..])
  {
    var k :| 0 <= k <= |t[b..]| && Matches(ks[1..], t[b..][k..]);
    assert t[b..][k..] == t[a..][b - a + k..];
  }

  predicate StarFree(ks: seq<Token>) {
    forall i :: 0 <= i < |ks| ==> !ks[i].Star?
  }

  /** Tokens other than stars take one byte each. */
  lemma {:induction false} StarFreeTakesItsLength(seg: seq<Token>, ks: seq<Token>, t: bytes)
    requires StarFree(seg) && Matches(seg + ks, t)
    ensures |seg| <= |t| && Matches(ks, t[|seg|..])
    decreases |seg|
  {
    if seg == [] {
      assert seg + ks == ks && t[0..] == t;
    } else {
      assert (seg + ks)[1..] == seg[1..] + ks;
      StarFreeTakesItsLength(seg[1..], ks, t[1..]);
      assert t[1..][|seg| - 1..] == t[|seg|..];
    }
  }

  /** A pattern read from offset `i`. */
  function From(p: bytes, i: nat): seq<Token>
    requires i <= |p|
  {
    Tokens(p[i..])
  }

  lemma FromStep(p: bytes, i: nat)
    requires i < |p|
    ensures var h := HeadOf(p[i..]);
            From(p, i) == [h.token] + From(p, i + h.width) && From(p, i)[1..] == From(p, i + h.width)
  {
    hide HeadOf;
    var h := HeadOf(p[i..]);
    assert p[i..][h.width..] == p[i + h.width..];
  }

  // -------------------------------------------------------------- classes

  /**
   * Scan a character class for one byte: how many bytes the class takes and
   * whether the byte is in it; nothing when it is not closed.
   */
  method MatchClass(p: bytes, c: byte) returns (r: Option<(nat, bool)>)
    requires p != [] && p[0] == OPEN
    ensures var h := HeadOf(p);
            if h.token.Never? then r == None
            else r == Some((h.width, Accepts(h.token, c)))
  {
    var i := 1;
    var negate := false;
    if i < |p| && p[i] == CARET {
      negate := true;
      i := 2;
    }
    ghost var skip := i;
    ghost var spans: seq<Span> := [];
    var matched := false;
    assert MembersSoFar(p, skip, i, spans) by { MembersStart(p, skip); }
    hide ClassMembers, MembersSoFar;
    while i < |p| && p[i] != CLOSE
      invariant skip <= i <= |p|
      invariant matched == InSpans(spans, c)
      invariant MembersSoFar(p, skip, i, spans)
    {
      MembersNext(p, skip, i, spans);
      if i + 2 < |p| && p[i + 1] == DASH && p[i + 2] != CLOSE {
        if p[i] <= c <= p[i + 2] {
          matched := true;
        }
        SpanAdded(spans, Span(p[i], p[i + 2]), c);
        spans := spans + [Span(p[i], p[i + 2])];
        i := i + 3;
      } else {
        if p[i] == c {
          matched := true;
        }
        SpanAdded(spans, Span(p[i], p[i]), c);
        spans := spans + [Span(p[i], p[i])];
        i := i + 1;
      }
    }
    MembersEnd(p, skip, i, spans);
    if i >= |p| {
      return None;
    }
    r := Some((i + 1, matched != negate));
  }

  /** Where the scan of a class stands after its members `spans`. */
  ghost predicate MembersSoFar(p: bytes, skip: nat, i: nat, spans: seq<Span>)
    requires skip <= i <= |p|
  {
    ClassMembers(p[skip..]) == Prepend(spans, i - skip, ClassMembers(p[i..]))
  }

  lemma PrependTwice(a: seq<Span>, v: nat, b: seq<Span>, w: nat, more: Option<Members>)
    ensures Prepend(a, v, Prepend(b, w, more)) == Prepend(a + b, v + w, more)
  {
    assert more.Some? ==> a + (b + more.value.spans) == (a + b) + more.value.spans;
  }

  lemma MembersStart(p: bytes, skip: nat)
    requires skip <= |p|
    ensures MembersSoFar(p, skip, skip, [])
  {
    var all := ClassMembers(p[skip..]);
    assert all.Some? ==> [] + all.value.spans == all.value.spans;
  }

  lemma MembersUnfold(p: bytes)
    requires p != [] && p[0] != CLOSE
    ensures var ranged := |p| >= 3 && p[1] == DASH && p[2] != CLOSE;
            var n := if ranged then 3 else 1;
            ClassMembers(p) == Prepend([Span(p[0], if ranged then p[2] else p[0])], n, ClassMembers(p[n..]))
  {
  }

  lemma MembersNext(p: bytes, skip: nat, i: nat, spans: seq<Span>)
    requires skip <= i < |p| && p[i] != CLOSE && MembersSoFar(p, skip, i, spans)
    ensures var ranged := i + 2 < |p| && p[i + 1] == DASH && p[i + 2] != CLOSE;
            var n := if ranged then 3 else 1;
            MembersSoFar(p, skip, i + n, spans + [Span(p[i], if ranged then p[i + 2] else p[i])])
  {
    var ranged := i + 2 < |p| && p[i + 1] == DASH && p[i + 2] != CLOSE;
    var n := if ranged then 3 else 1;
    var s := Span(p[i], if ranged then p[i + 2] else p[i]);
    hide ClassMembers, Prepend;
    MembersUnfold(p[i..]);
    assert p[i..][n..] == p[i + n..];
    PrependTwice(spans, i - skip, [s], n, ClassMembers(p[i + n..]));
  }

  lemma MembersEnd(p: bytes, skip: nat, i: nat, spans: seq<Span>)
    requires skip <= i <= |p| && (i < |p| ==> p[i] == CLOSE) && MembersSoFar(p, skip, i, spans)
    ensures ClassMembers(p[skip..]) == if i < |p| then Some(Members(spans, i - skip + 1)) else None
  {
    assert spans + [] == spans;
  }

  lemma SpanAdded(spans: seq<Span>, s: Span, c: byte)
    ensures InSpans(spans + [s], c) <==> InSpans(spans, c) || s.lo <= c <= s.hi
  {
    var all := spans + [s];
    assert all[|spans|] == s;
    assert forall i :: 0 <= i < |spans| ==> all[i] == spans[i];
  }

  // ------------------------------------------------------------- the loop

  /** Some later place to restart after the remembered star would match. */
  ghost predicate MatchesLater(p: bytes, t: bytes, star: Option<nat>, starT: nat)
    requires star.Some? ==> star.value < |p|
  {
    star.Some? && exists k :: starT < k <= |t| && Matches(From(p, star.value + 1), t[k..])
  }

  /** Between the remembered star and here lie only single-byte tokens, one per byte read since. */
  ghost predicate Since(p: bytes, star: Option<nat>, seg: seq<Token>, pi: nat)
    requires pi <= |p| && (star.Some? ==> star.value < |p|)
  {
    StarFree(seg) && (star.Some? ==> From(p, star.value + 1) == seg + From(p, pi))
  }

  /** Forgetting an older star loses nothing: the newer one can take up whatever it could. */
  lemma OlderStarForgotten(p: bytes, t: bytes, star: Option<nat>, starT: nat, seg: seq<Token>, pi: nat, ti: nat)
    requires pi < |p| && HeadOf(p[pi..]).token.Star? && ti <= |t| && (star.Some? ==> star.value < |p|)
    requires Since(p, star, seg, pi) && starT + |seg| == ti
    requires MatchesLater(p, t, star, starT)
    ensures Matches(From(p, pi), t[ti..])
  {
    hide Matches, HeadOf;
    var k :| starT < k <= |t| && Matches(From(p, star.value + 1), t[k..]);
    StarFreeTakesItsLength(seg, From(p, pi), t[k..]);
    assert t[k..][|seg|..] == t[k + |seg|..];
    FromStep(p, pi);
    StarReachesBack(From(p, pi), t, ti, k + |seg|);
  }

  /** At the end of the text there is no later place left. */
  lemma NoLaterAtEnd(p: bytes, t: bytes, star: Option<nat>, starT: nat, seg: seq<Token>, pi: nat)
    requires pi <= |p| && (star.Some? ==> star.value < |p|)
    requires Since(p, star, seg, pi) && starT + |seg| == |t|
    ensures !MatchesLater(p, t, star, starT)
  {
    if MatchesLater(p, t, star, starT) {
      var k :| starT < k <= |t| && Matches(From(p, star.value + 1), t[k..]);
      StarFreeTakesItsLength(seg, From(p, pi), t[k..]);
    }
  }

  lemma StarSplits(p: bytes, t: bytes, pi: nat, ti: nat)
    requires pi < |p| && p[pi] == STAR && ti <= |t|
    ensures Matches(From(p, pi), t[ti..])
            <==> Matches(From(p, pi + 1), t[ti..]) || MatchesLater(p, t, Some(pi), ti)
  {
    FromStep(p, pi);
    var ks := From(p, pi);
    if Matches(ks, t[ti..]) {
      var k :| 0 <= k <= |t[ti..]| && Matches(ks[1..], t[ti..][k..]);
      assert t[ti..][k..] == t[ti + k..];
    }
    if Matches(From(p, pi + 1), t[ti..]) {
      assert t[ti..][0..] == t[ti..];
    }
    if MatchesLater(p, t, Some(pi), ti) {
      var k :| ti < k <= |t| && Matches(From(p, pi + 1), t[k..]);
      assert t[ti..][k - ti..] == t[k..];
    }
  }

  /** Moving the restart one byte on. */
  lemma LaterSplits(p: bytes, t: bytes, sp: nat, starT: nat)
    requires sp < |p| && starT < |t|
    ensures MatchesLater(p, t, Some(sp), starT)
            <==> Matches(From(p, sp + 1), t[starT + 1..]) || MatchesLater(p, t, Some(sp), starT + 1)
  {
  }

  lemma OneByte(p: bytes, t: bytes, pi: nat, ti: nat)
    requires pi < |p| && ti < |t| && p[pi] != STAR
    ensures var h := HeadOf(p[pi..]);
            Matches(From(p, pi), t[ti..]) <==> Accepts(h.token, t[ti]) && Matches(From(p, pi + h.width), t[ti + 1..])
  {
    FromStep(p, pi);
    assert t[ti..][1..] == t[ti + 1..];
  }

  lemma SinceGrows(p: bytes, star: Option<nat>, seg: seq<Token>, pi: nat)
    requires pi < |p| && (star.Some? ==> star.value < |p|) && p[pi] != STAR && Since(p, star, seg, pi)
    ensures var h := HeadOf(p[pi..]);
            Since(p, star, seg + [h.token], pi + h.width)
  {
    hide HeadOf, Tokens, From;
    FromStep(p, pi);
    var h := HeadOf(p[pi..]);
    assert seg + ([h.token] + From(p, pi + h.width)) == (seg + [h.token]) + From(p, pi + h.width);
    assert !h.token.Star? by { OnlyStarIsStar(p, pi); }
  }

  lemma OnlyStarIsStar(p: bytes, pi: nat)
    requires pi < |p| && p[pi] != STAR
    ensures !HeadOf(p[pi..]).token.Star?
  {
  }

  /** What the head of the pattern does with one byte of text. */
  method TryOne(p: bytes, pi: nat, c: byte) returns (advance: nat)
    requires pi < |p| && p[pi] != STAR
    ensures var h := HeadOf(p[pi..]);
            advance == if Accepts(h.token, c) then h.width else 0
  {
    advance := 0;
    if p[pi] == BACKSLASH {
      if pi + 1 < |p| && p[pi + 1] == c {
        advance := 2;
      }
    } else if p[pi] == QUESTION {
      advance := 1;
    } else if p[pi] == OPEN {
      var r := MatchClass(p[pi..], c);
      if r.Some? && r.value.1 {
        advance := r.value.0;
      }
    } else if p[pi] == c {
      advance := 1;
    }
  }

  /**
   * The matcher agrees with the meaning of the pattern, and its main loop runs
   * fewer than (|text| + 1) * (|pattern| + 1) times.
   */
  method GlobMatch(p: bytes, t: bytes) returns (r: bool, ghost steps: nat)
    ensures r <==> Matches(Tokens(p), t)
    ensures steps < (|t| + 1) * (|p| + 1)
  {
    hide Matches, HeadOf, Tokens, From, MatchesLater, Since, Times;
    TimesFacts(0, |p| + 1);
    var pi: nat, ti: nat := 0, 0;
    var star: Option<nat> := None;
    var starT: nat := 0;
    steps := 0;
    ghost var seg: seq<Token> := [];
    assert Since(p, star, seg, pi) && From(p, 0) == Tokens(p)
        && !MatchesLater(p, t, star, starT) by { Beginning(p, t); }
    assert t[0..] == t;
    while ti < |t|
      invariant pi <= |p| && starT <= ti <= |t|
      invariant star.Some? ==> star.value < pi
      invariant Since(p, star, seg, pi) && (star.Some? ==> starT + |seg| == ti)
      invariant Matches(Tokens(p), t) <==> Matches(From(p, pi), t[ti..]) || MatchesLater(p, t, star, starT)
      invariant steps <= Times(starT, |p| + 1) + pi
      decreases |t| - starT, |p| - pi
    {
      steps := steps + 1;
      if pi < |p| && p[pi] == STAR {
        StarSplits(p, t, pi, ti);
        if MatchesLater(p, t, star, starT) {
          assert star.Some? by { LaterNeedsStar(p, t, star, starT); }
          assert HeadOf(p[pi..]).token.Star? by { StarHead(p, pi); }
          OlderStarForgotten(p, t, star, starT, seg, pi, ti);
        }
        TimesGrows(starT, ti, |p| + 1);
        star, starT, pi, seg := Some(pi), ti, pi + 1, [];
        assert Since(p, star, seg, pi) by { FreshStar(p, pi); }
        continue;
      }
      if pi < |p| {
        var advance := TryOne(p, pi, t[ti]);
        OneByte(p, t, pi, ti);
        if advance > 0 {
          SinceGrows(p, star, seg, pi);
          seg := seg + [HeadOf(p[pi..]).token];
          pi, ti := pi + advance, ti + 1;
          continue;
        }
      } else {
        assert !Matches(From(p, pi), t[ti..]) by { NothingLeft(p, t[ti..]); }
      }
      if star.None? {
        assert !MatchesLater(p, t, star, starT) by {
          if MatchesLater(p, t, star, starT) {
            LaterNeedsStar(p, t, star, starT);
          }
        }
        TimesFacts(starT, |p| + 1);
        TimesGrows(starT + 1, |t|, |p| + 1);
        TimesFacts(|t|, |p| + 1);
        return false, steps;
      }
      LaterSplits(p, t, star.value, starT);
      TimesFacts(starT, |p| + 1);
      pi, starT, seg := star.value + 1, starT + 1, [];
      ti := starT;
      assert Since(p, star, seg, pi) by { FreshStar(p, pi); }
    }
    TimesGrows(starT, |t|, |p| + 1);
    TimesFacts(|t|, |p| + 1);
    assert !MatchesLater(p, t, star, starT) by {
      if star.Some? {
        NoLaterAtEnd(p, t, star, starT, seg, pi);
      } else if MatchesLater(p, t, star, starT) {
        LaterNeedsStar(p, t, star, starT);
      }
    }
    assert t[|t|..] == [];
    while pi < |p| && p[pi] == STAR
      invariant pi <= |p|
      invariant Matches(Tokens(p), t) <==> Matches(From(p, pi), [])
    {
      StarOnNothing(p, pi);
      pi := pi + 1;
    }
    assert Matches(From(p, pi), []) <==> pi == |p| by { RestOnNothing(p, pi); }
    r := pi == |p|;
  }

  function Times(a: nat, b: nat): nat {
    a * b
  }

  lemma TimesFacts(a: nat, b: nat)
    ensures Times(a + 1, b) == Times(a, b) + b == (a + 1) * b && Times(0, b) == 0
  {
  }

  lemma TimesGrows(a: nat, b: nat, c: nat)
    requires a <= b
    ensures Times(a, c) <= Times(b, c)
  {
  }

  lemma Beginning(p: bytes, t: bytes)
    ensures Since(p, None, [], 0) && From(p, 0) == Tokens(p) && !MatchesLater(p, t, None, 0)
  {
    assert p[0..] == p;
  }

  lemma LaterNeedsStar(p: bytes, t: bytes, star: Option<nat>, starT: nat)
    requires (star.Some? ==> star.value < |p|) && MatchesLater(p, t, star, starT)
    ensures star.Some?
  {
  }

  lemma StarHead(p: bytes, pi: nat)
    requires pi < |p| && p[pi] == STAR
    ensures HeadOf(p[pi..]).token.Star?
  {
  }

  lemma FreshStar(p: bytes, pi: nat)
    requires 0 < pi <= |p|
    ensures Since(p, Some(pi - 1), [], pi)
  {
    assert [] + From(p, pi) == From(p, pi);
  }

  lemma NothingLeft(p: bytes, t: bytes)
    requires t != []
    ensures !Matches(From(p, |p|), t)
  {
    assert p[|p|..] == [];
  }

  lemma StarOnNothing(p: bytes, pi: nat)
    requires pi < |p| && p[pi] == STAR
    ensures Matches(From(p, pi), []) <==> Matches(From(p, pi + 1), [])
  {
    FromStep(p, pi);
    var nothing: bytes := [];
    assert nothing[0..] == nothing;
  }

  lemma RestOnNothing(p: bytes, pi: nat)
    requires pi <= |p| && (pi < |p| ==> p[pi] != STAR)
    ensures Matches(From(p, pi), []) <==> pi == |p|
  {
    if pi < |p| {
      FromStep(p, pi);
      OnlyStarIsStar(p, pi);
    } else {
      assert p[pi..] == [];
    }
  }
}
