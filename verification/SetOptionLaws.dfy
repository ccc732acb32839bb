/**
 * The options of SET, as a client writes them: words in any letter case and any
 * order, some followed by a number, none of a kind twice.
 */
module SetOptionLaws {
  import opened Bytes
  import opened Keyspace
  import opened Commands

  // ----------------------------------------------------------------- words

  lemma OptionWords()
    ensures Word("NX") == [78, 88] && Word("XX") == [88, 88] && Word("GET") == [71, 69, 84]
    ensures Word("KEEPTTL") == [75, 69, 69, 80, 84, 84, 76]
    ensures Word("EX") == EX && Word("PX") == PX && Word("EXAT") == EXAT && Word("PXAT") == PXAT
  {
  }

  /** What has ASCII capitals is ASCII, so it is text. */
  lemma CapitalsOfText(w: bytes)
    requires IsAscii(Upper(w))
    ensures IsUtf8(w)
  {
    forall i | 0 <= i < |w|
      ensures w[i] < 128
    {
      assert Upper(w)[i] < 128;
    }
    AsciiIsUtf8(w);
  }

  /** Which option a word opens. */
  lemma TokenMeans(w: bytes)
    ensures TokenOf(w) == NX_TOKEN <==> Upper(w) == Word("NX")
    ensures TokenOf(w) == XX_TOKEN <==> Upper(w) == Word("XX")
    ensures TokenOf(w) == KEEPTTL_TOKEN <==> Upper(w) == Word("KEEPTTL")
    ensures TokenOf(w) == GET_TOKEN <==> Upper(w) == Word("GET")
    ensures TokenOf(w) == TTL_TOKEN(Word("EX")) <==> Upper(w) == Word("EX")
    ensures TokenOf(w) == TTL_TOKEN(Word("PX")) <==> Upper(w) == Word("PX")
    ensures TokenOf(w) == TTL_TOKEN(Word("EXAT")) <==> Upper(w) == Word("EXAT")
    ensures TokenOf(w) == TTL_TOKEN(Word("PXAT")) <==> Upper(w) == Word("PXAT")
    ensures TokenOf(w).TTL_TOKEN? ==> TokenOf(w).unit in {Word("EX"), Word("PX"), Word("EXAT"), Word("PXAT")}
  {
    OptionWords();
    hide Word, IsUtf8, Upper;
    if IsAscii(Upper(w)) {
      CapitalsOfText(w);
    }
  }

  // ---------------------------------------------------------------- groups

  predicate IsTtlWord(w: bytes) {
    Upper(w) == Word("EX") || Upper(w) == Word("PX") || Upper(w) == Word("EXAT") || Upper(w) == Word("PXAT")
  }

  /** The arguments cut into options: a word, and its number for the words that take one. */
  function Groups(args: seq<bytes>): (r: seq<seq<bytes>>)
    ensures forall i :: 0 <= i < |r| ==> r[i] != []
    decreases |args|
  {
    if args == [] then []
    else if IsTtlWord(args[0]) && |args| >= 2 then [args[..2]] + Groups(args[2..])
    else [args[..1]] + Groups(args[1..])
  }

  predicate IsWord(g: seq<bytes>, s: string)
    requires forall i :: 0 <= i < |s| ==> s[i] < '\U{80}'
  {
    |g| == 1 && Upper(g[0]) == Word(s)
  }

  /** A word and a 64-bit number. */
  predicate IsTimed(g: seq<bytes>, s: string, n: nat)
    requires forall i :: 0 <= i < |s| ==> s[i] < '\U{80}'
  {
    |g| == 2 && Upper(g[0]) == Word(s) && IsUtf8(g[1]) && ParseUnsigned(g[1], U64_MAX) == Some(n)
  }

  function NumberOf(g: seq<bytes>): Option<nat> {
    if |g| == 2 && IsUtf8(g[1]) then ParseUnsigned(g[1], U64_MAX) else None
  }

  /** The deadline an option asks for: relative ones must not be zero. */
  function TtlOf(g: seq<bytes>): Option<TtlChoice> {
    if IsWord(g, "KEEPTTL") then Some(Keep)
    else
      match NumberOf(g)
      case None => None
      case Some(n) =>
        if IsTimed(g, "EX", n) then (if n == 0 then None else Some(Seconds(n)))
        else if IsTimed(g, "PX", n) then (if n == 0 then None else Some(Milliseconds(n)))
        else if IsTimed(g, "EXAT", n) then Some(UnixSeconds(n))
        else if IsTimed(g, "PXAT", n) then Some(UnixMilliseconds(n))
        else None
  }

  datatype Sort = OnExistence | OnDeadline | OnReply | NoOption

  function SortOf(g: seq<bytes>): Sort {
    if IsWord(g, "NX") || IsWord(g, "XX") then OnExistence
    else if IsWord(g, "GET") then OnReply
    else if TtlOf(g).Some? then OnDeadline
    else NoOption
  }

  /** Every option is one, and none of a sort comes twice. */
  predicate Acceptable(gs: seq<seq<bytes>>) {
    && (forall i :: 0 <= i < |gs| ==> SortOf(gs[i]) != NoOption)
    && (forall i, j :: 0 <= i < j < |gs| ==> SortOf(gs[i]) != SortOf(gs[j]))
  }

  // ------------------------------------------------------------- one option

  function Used(o: SetOptions): set<Sort> {
    (if o.existence.Always? then {} else {OnExistence})
    + (if o.ttl.Default? then {} else {OnDeadline})
    + (if o.get then {OnReply} else {})
  }

  /** The options with one more. */
  function With(o: SetOptions, g: seq<bytes>): SetOptions {
    match SortOf(g)
    case OnExistence => o.(existence := if IsWord(g, "NX") then OnlyIfMissing else OnlyIfPresent)
    case OnReply => o.(get := true)
    case OnDeadline => o.(ttl := TtlOf(g).value)
    case NoOption => o
  }

  lemma WordsApart()
    ensures Word("NX") != Word("XX") && Word("NX") != Word("GET") && Word("NX") != Word("KEEPTTL")
    ensures Word("XX") != Word("GET") && Word("XX") != Word("KEEPTTL") && Word("GET") != Word("KEEPTTL")
    ensures forall w :: IsTtlWord(w) ==>
              Upper(w) != Word("NX") && Upper(w) != Word("XX") && Upper(w) != Word("GET") && Upper(w) != Word("KEEPTTL")
    ensures Word("EX") != Word("PX") && Word("EX") != Word("EXAT") && Word("EX") != Word("PXAT")
    ensures Word("PX") != Word("EXAT") && Word("PX") != Word("PXAT") && Word("EXAT") != Word("PXAT")
  {
    OptionWords();
    hide Word, Upper;
  }

  lemma TimedMeans(w: bytes, n: bytes)
    requires IsTtlWord(w)
    ensures TokenOf(w).TTL_TOKEN?
    ensures TtlOf([w, n]) == (var t := TtlChoiceOf(TokenOf(w).unit, n); if t.Picked? then Some(t.value) else None)
    ensures SortOf([w, n]) == if TtlOf([w, n]).Some? then OnDeadline else NoOption
  {
    TokenMeans(w);
    WordsApart();
    OptionWords();
    hide Word, Upper, IsUtf8, ParseUnsigned, TokenOf;
  }

  lemma PlainMeans(w: bytes)
    ensures TokenOf(w) == NX_TOKEN ==> SortOf([w]) == OnExistence && IsWord([w], "NX")
    ensures TokenOf(w) == XX_TOKEN ==> SortOf([w]) == OnExistence && !IsWord([w], "NX")
    ensures TokenOf(w) == GET_TOKEN ==> SortOf([w]) == OnReply
    ensures TokenOf(w) == KEEPTTL_TOKEN ==> SortOf([w]) == OnDeadline && TtlOf([w]) == Some(Keep)
    ensures TokenOf(w).OTHER_TOKEN? || TokenOf(w).TTL_TOKEN? ==> SortOf([w]) == NoOption
    ensures TokenOf(w).TTL_TOKEN? <==> IsTtlWord(w)
  {
    TokenMeans(w);
    WordsApart();
    hide Word, Upper, IsUtf8, TokenOf;
  }

  /** The first option decides, and the rest goes on with it. */
  lemma FirstOption(args: seq<bytes>, o: SetOptions)
    requires args != []
    ensures var g := Groups(args)[0];
            && args == g + args[|g|..] && Groups(args) == [g] + Groups(args[|g|..])
            && (SortOf(g) == NoOption || SortOf(g) in Used(o) ==> SetOptionsOf(args, o).Rejected?)
            && (SortOf(g) != NoOption && SortOf(g) !in Used(o) ==>
                  SetOptionsOf(args, o) == SetOptionsOf(args[|g|..], With(o, g)))
  {
    hide TokenOf, TtlChoiceOf, SortOf, TtlOf, IsWord, IsTtlWord;
    var w := args[0];
    PlainMeans(w);
    assert args[..1] == [w];
    if IsTtlWord(w) && |args| >= 2 {
      assert args[..2] == [w, args[1]];
      TimedMeans(w, args[1]);
    }
  }

  // ---------------------------------------------------------------- the law

  ghost predicate HasWord(gs: seq<seq<bytes>>, s: string)
    requires forall i :: 0 <= i < |s| ==> s[i] < '\U{80}'
  {
    exists i :: 0 <= i < |gs| && IsWord(gs[i], s)
  }

  ghost predicate HasTtl(gs: seq<seq<bytes>>, t: TtlChoice) {
    exists i :: 0 <= i < |gs| && TtlOf(gs[i]) == Some(t)
  }

  /** What the options mean, given what was set before them. */
  ghost predicate Reads(gs: seq<seq<bytes>>, o: SetOptions, r: SetOptions) {
    && r.existence == (if HasWord(gs, "NX") then OnlyIfMissing
                       else if HasWord(gs, "XX") then OnlyIfPresent else o.existence)
    && r.get == (HasWord(gs, "GET") || o.get)
    && (forall t :: HasTtl(gs, t) ==> r.ttl == t)
    && ((forall t :: !HasTtl(gs, t)) ==> r.ttl == o.ttl)
  }

  predicate Fits(gs: seq<seq<bytes>>, used: set<Sort>) {
    Acceptable(gs) && forall i :: 0 <= i < |gs| ==> SortOf(gs[i]) !in used
  }

  lemma FitsStep(g: seq<bytes>, rest: seq<seq<bytes>>, o: SetOptions)
    requires SortOf(g) != NoOption && SortOf(g) !in Used(o)
    ensures Fits([g] + rest, Used(o)) <==> Fits(rest, Used(With(o, g)))
  {
    hide SortOf;
    var gs := [g] + rest;
    assert forall i :: 0 <= i < |rest| ==> gs[i + 1] == rest[i];
    assert gs[0] == g;
    UsedWith(o, g);
    if Fits(gs, Used(o)) {
      forall i | 0 <= i < |rest|
        ensures SortOf(rest[i]) != SortOf(g) && SortOf(rest[i]) !in Used(o) && SortOf(rest[i]) != NoOption
      {
        assert SortOf(gs[0]) != SortOf(gs[i + 1]);
      }
      forall i, j | 0 <= i < j < |rest|
        ensures SortOf(rest[i]) != SortOf(rest[j])
      {
        assert SortOf(gs[i + 1]) != SortOf(gs[j + 1]);
      }
    }
    if Fits(rest, Used(With(o, g))) {
      forall i | 0 <= i < |gs|
        ensures SortOf(gs[i]) != NoOption && SortOf(gs[i]) !in Used(o)
      {
        assert i > 0 ==> gs[i] == rest[i - 1];
      }
      forall i, j | 0 <= i < j < |gs|
        ensures SortOf(gs[i]) != SortOf(gs[j])
      {
        assert gs[j] == rest[j - 1];
        assert i > 0 ==> gs[i] == rest[i - 1];
      }
    }
  }

  lemma UsedWith(o: SetOptions, g: seq<bytes>)
    requires SortOf(g) != NoOption
    ensures Used(With(o, g)) == Used(o) + {SortOf(g)}
  {
    hide IsWord, IsTimed, ParseUnsigned, IsUtf8;
    TtlNeverDefault(g);
  }

  lemma TtlNeverDefault(g: seq<bytes>)
    ensures TtlOf(g) != Some(Default)
  {
    hide IsWord, IsTimed;
  }

  lemma ReadsStep(g: seq<bytes>, rest: seq<seq<bytes>>, o: SetOptions, r: SetOptions)
    requires Fits([g] + rest, Used(o)) && Reads(rest, With(o, g), r)
    ensures Reads([g] + rest, o, r)
  {
    hide IsWord, TtlOf;
    var gs := [g] + rest;
    assert gs[0] == g && forall i :: 0 <= i < |rest| ==> gs[i + 1] == rest[i];
    forall i | 0 <= i < |rest|
      ensures SortOf(rest[i]) != SortOf(g) && SortOf(rest[i]) !in Used(o)
    {
      assert SortOf(gs[0]) != SortOf(gs[i + 1]);
    }
    assert SortOf(gs[0]) != NoOption && SortOf(gs[0]) !in Used(o);
    WordsSplit(g, rest, "NX");
    WordsSplit(g, rest, "XX");
    WordsSplit(g, rest, "GET");
    forall t
      ensures HasTtl(gs, t) <==> TtlOf(g) == Some(t) || HasTtl(rest, t)
    {
      TtlSplit(g, rest, t);
    }
    SortsAre(g);
    forall i | 0 <= i < |rest|
      ensures IsWord(rest[i], "NX") || IsWord(rest[i], "XX") ==> SortOf(rest[i]) == OnExistence
      ensures IsWord(rest[i], "GET") ==> SortOf(rest[i]) == OnReply
      ensures TtlOf(rest[i]).Some? ==> SortOf(rest[i]) == OnDeadline
    {
      SortsAre(rest[i]);
    }
    if SortOf(g) == OnDeadline {
      assert HasTtl(gs, TtlOf(g).value);
    }
  }

  lemma SortsAre(g: seq<bytes>)
    ensures SortOf(g) == OnExistence <==> IsWord(g, "NX") || IsWord(g, "XX")
    ensures SortOf(g) == OnReply <==> IsWord(g, "GET")
    ensures SortOf(g) == OnDeadline <==> TtlOf(g).Some?
    ensures !(IsWord(g, "NX") && IsWord(g, "XX"))
  {
    WordsApart();
    hide Word, Upper, IsUtf8, ParseUnsigned;
    if TtlOf(g).Some? {
      assert IsWord(g, "KEEPTTL") || |g| == 2;
    }
  }

  lemma WordsSplit(g: seq<bytes>, rest: seq<seq<bytes>>, s: string)
    requires forall i :: 0 <= i < |s| ==> s[i] < '\U{80}'
    ensures HasWord([g] + rest, s) <==> IsWord(g, s) || HasWord(rest, s)
  {
    hide IsWord;
    var gs := [g] + rest;
    assert gs[0] == g && forall i :: 0 <= i < |rest| ==> gs[i + 1] == rest[i];
    if HasWord(rest, s) {
      var i :| 0 <= i < |rest| && IsWord(rest[i], s);
      assert IsWord(gs[i + 1], s);
    }
    if HasWord(gs, s) {
      var i :| 0 <= i < |gs| && IsWord(gs[i], s);
      assert i > 0 ==> IsWord(rest[i - 1], s);
    }
  }

  lemma TtlSplit(g: seq<bytes>, rest: seq<seq<bytes>>, t: TtlChoice)
    ensures HasTtl([g] + rest, t) <==> TtlOf(g) == Some(t) || HasTtl(rest, t)
  {
    hide TtlOf;
    var gs := [g] + rest;
    assert gs[0] == g && forall i :: 0 <= i < |rest| ==> gs[i + 1] == rest[i];
    if HasTtl(rest, t) {
      var i :| 0 <= i < |rest| && TtlOf(rest[i]) == Some(t);
      assert TtlOf(gs[i + 1]) == Some(t);
    }
    if HasTtl(gs, t) {
      var i :| 0 <= i < |gs| && TtlOf(gs[i]) == Some(t);
      assert i > 0 ==> TtlOf(rest[i - 1]) == Some(t);
    }
  }

  lemma {:induction false} OptionsFrom(args: seq<bytes>, o: SetOptions)
    ensures SetOptionsOf(args, o).Picked? <==> Fits(Groups(args), Used(o))
    ensures SetOptionsOf(args, o).Picked? ==> Reads(Groups(args), o, SetOptionsOf(args, o).value)
    decreases |args|
  {
    hide SortOf, With, Used, Reads, SetOptionsOf, Acceptable;
    if args == [] {
      NoOptionsAtAll(o);
    } else {
      FirstOption(args, o);
      var g := Groups(args)[0];
      var rest := args[|g|..];
      if SortOf(g) != NoOption && SortOf(g) !in Used(o) {
        OptionsFrom(rest, With(o, g));
        FitsStep(g, Groups(rest), o);
        if SetOptionsOf(args, o).Picked? {
          ReadsStep(g, Groups(rest), o, SetOptionsOf(args, o).value);
        }
      } else {
        FirstMustFit(Groups(args), Used(o));
      }
    }
  }

  lemma NoOptionsAtAll(o: SetOptions)
    ensures SetOptionsOf([], o) == Picked(o) && Fits([], Used(o)) && Reads([], o, o)
  {
  }

  lemma FirstMustFit(gs: seq<seq<bytes>>, used: set<Sort>)
    requires gs != [] && (SortOf(gs[0]) == NoOption || SortOf(gs[0]) in used)
    ensures !Fits(gs, used)
  {
    hide SortOf;
  }

  /**
   * The options of SET are accepted exactly when each is one and none of a sort
   * comes twice; and then each part is set exactly as the option that is there
   * says: NX, XX, GET, KEEPTTL, or EX, PX, EXAT or PXAT and its number.
   */
  lemma OptionsMean(args: seq<bytes>)
    ensures SetOptionsOf(args, NO_OPTIONS).Picked? <==> Acceptable(Groups(args))
    ensures SetOptionsOf(args, NO_OPTIONS).Picked? ==>
              var o := SetOptionsOf(args, NO_OPTIONS).value;
              var gs := Groups(args);
              && (o.existence == OnlyIfMissing <==> HasWord(gs, "NX"))
              && (o.existence == OnlyIfPresent <==> HasWord(gs, "XX"))
              && (o.get <==> HasWord(gs, "GET"))
              && (forall t :: t != Default ==> (o.ttl == t <==> HasTtl(gs, t)))
  {
    hide SortOf, HasTtl, SetOptionsOf;
    OptionsFrom(args, NO_OPTIONS);
    var gs := Groups(args);
    if SetOptionsOf(args, NO_OPTIONS).Picked? {
      NotBoth(gs);
    }
  }

  lemma NotBoth(gs: seq<seq<bytes>>)
    requires Acceptable(gs)
    ensures !(HasWord(gs, "NX") && HasWord(gs, "XX"))
  {
    hide SortOf, IsWord;
    if HasWord(gs, "NX") && HasWord(gs, "XX") {
      var i :| 0 <= i < |gs| && IsWord(gs[i], "NX");
      var j :| 0 <= j < |gs| && IsWord(gs[j], "XX");
      SortsAre(gs[i]);
      SortsAre(gs[j]);
    }
  }

  // --------------------------------------------------------------- any order

  function Sorts(gs: seq<seq<bytes>>): seq<Sort> {
    seq(|gs|, i requires 0 <= i < |gs| => SortOf(gs[i]))
  }

  lemma {:induction false} SameSorts(a: seq<seq<bytes>>, b: seq<seq<bytes>>)
    requires multiset(a) == multiset(b)
    ensures multiset(Sorts(a)) == multiset(Sorts(b))
    decreases |a|
  {
    hide SortOf, Sorts;
    if a == [] {
      assert |b| == |multiset(b)| == 0;
    } else {
      assert a[0] in multiset(b);
      var j :| 0 <= j < |b| && b[j] == a[0];
      SortsWithout(a, 0);
      SortsWithout(b, j);
      TakeOut(a, 0);
      TakeOut(b, j);
      Cancel(multiset(a[..0] + a[0 + 1..]), multiset(b[..j] + b[j + 1..]), a[0]);
      SameSorts(a[..0] + a[0 + 1..], b[..j] + b[j + 1..]);
    }
  }

  lemma Cancel(a: multiset<seq<bytes>>, b: multiset<seq<bytes>>, x: seq<bytes>)
    requires a + multiset{x} == b + multiset{x}
    ensures a == b
  {
    assert a == a + multiset{x} - multiset{x};
    assert b == b + multiset{x} - multiset{x};
  }

  lemma SortsWithout(gs: seq<seq<bytes>>, j: nat)
    requires j < |gs|
    ensures multiset(Sorts(gs)) == multiset(Sorts(gs[..j] + gs[j + 1..])) + multiset{SortOf(gs[j])}
  {
    hide SortOf;
    TakeOut(Sorts(gs), j);
    assert Sorts(gs[..j] + gs[j + 1..]) == Sorts(gs)[..j] + Sorts(gs)[j + 1..];
  }

  lemma TakeOut<T>(s: seq<T>, j: nat)
    requires j < |s|
    ensures multiset(s) == multiset(s[..j] + s[j + 1..]) + multiset{s[j]}
  {
    assert s == s[..j] + ([s[j]] + s[j + 1..]);
  }

  lemma OnceIff(ss: seq<Sort>, i: nat)
    requires i < |ss|
    ensures multiset(ss)[ss[i]] == 1 <==> forall j :: 0 <= j < |ss| && j != i ==> ss[j] != ss[i]
  {
    var rest := ss[..i] + ss[i + 1..];
    TakeOut(ss, i);
    assert ss[i] in rest <==> multiset(rest)[ss[i]] > 0;
    if j :| 0 <= j < |ss| && j != i && ss[j] == ss[i] {
      assert rest[if j < i then j else j - 1] == ss[i];
    } else {
      assert forall j :: 0 <= j < |rest| ==> rest[j] == ss[if j < i then j else j + 1];
    }
  }

  lemma AcceptableBySorts(gs: seq<seq<bytes>>)
    ensures Acceptable(gs) <==> NoOption !in Sorts(gs) && forall s :: s in Sorts(gs) ==> multiset(Sorts(gs))[s] == 1
  {
    hide SortOf;
    var ss := Sorts(gs);
    assert forall i :: 0 <= i < |gs| ==> ss[i] == SortOf(gs[i]);
    if Acceptable(gs) {
      forall s | s in ss
        ensures multiset(ss)[s] == 1
      {
        var i :| 0 <= i < |ss| && ss[i] == s;
        OnceIff(ss, i);
      }
    }
    if NoOption !in ss && forall s :: s in ss ==> multiset(ss)[s] == 1 {
      forall i, j | 0 <= i < j < |gs|
        ensures SortOf(gs[i]) != SortOf(gs[j])
      {
        OnceIff(ss, i);
        assert ss[i] in ss;
      }
    }
  }

  /** The order of the options does not matter. */
  lemma AnyOrder(a: seq<bytes>, b: seq<bytes>)
    requires multiset(Groups(a)) == multiset(Groups(b))
    ensures SetOptionsOf(a, NO_OPTIONS).Picked? <==> SetOptionsOf(b, NO_OPTIONS).Picked?
    ensures SetOptionsOf(a, NO_OPTIONS).Picked? ==> SetOptionsOf(a, NO_OPTIONS) == SetOptionsOf(b, NO_OPTIONS)
  {
    hide SetOptionsOf, Acceptable, SortOf, Sorts, Groups, TtlOf, IsWord;
    OptionsMean(a);
    OptionsMean(b);
    var x, y := Groups(a), Groups(b);
    SameSorts(x, y);
    AcceptableBySorts(x);
    AcceptableBySorts(y);
    assert forall s :: s in Sorts(x) <==> s in multiset(Sorts(x));
    assert forall s :: s in Sorts(y) <==> s in multiset(Sorts(y));
    if SetOptionsOf(a, NO_OPTIONS).Picked? {
      assert forall g :: g in x <==> g in multiset(x);
      assert forall g :: g in y <==> g in multiset(y);
      SameWord(x, y, "NX");
      SameWord(x, y, "XX");
      SameWord(x, y, "GET");
      var o, p := SetOptionsOf(a, NO_OPTIONS).value, SetOptionsOf(b, NO_OPTIONS).value;
      SameTtl(x, y, o.ttl);
      SameTtl(x, y, p.ttl);
    }
  }

  lemma SameWord(a: seq<seq<bytes>>, b: seq<seq<bytes>>, s: string)
    requires (forall i :: 0 <= i < |s| ==> s[i] < '\U{80}') && forall g :: g in a <==> g in b
    ensures HasWord(a, s) <==> HasWord(b, s)
  {
    hide IsWord;
    if i :| 0 <= i < |a| && IsWord(a[i], s) {
      assert a[i] in b;
    }
    if i :| 0 <= i < |b| && IsWord(b[i], s) {
      assert b[i] in a;
    }
  }

  lemma SameTtl(a: seq<seq<bytes>>, b: seq<seq<bytes>>, t: TtlChoice)
    requires forall g :: g in a <==> g in b
    ensures HasTtl(a, t) <==> HasTtl(b, t)
  {
    hide TtlOf;
    if i :| 0 <= i < |a| && TtlOf(a[i]) == Some(t) {
      assert a[i] in b;
    }
    if i :| 0 <= i < |b| && TtlOf(b[i]) == Some(t) {
      assert b[i] in a;
    }
  }
}
