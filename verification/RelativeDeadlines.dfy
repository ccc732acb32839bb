/**
 * Deadlines given as a time from now. They are logged as sent, so a replay in
 * another process, at another time, counts them from there. Stores are compared
 * in absolute time, since each process counts instants from its own boot.
 */
module RelativeDeadlines {
  import opened Bytes
  import opened Resp
  import opened Keyspace
  import opened Commands
  import opened Meaning
  import opened Recovery

  /** The same store with its deadlines counted from another origin. */
  function Moved(ks: Keys, shift: int): Keys {
    map k | k in ks :: Entry(ks[k].value, MovedDeadline(ks[k].deadline, shift))
  }

  function MovedDeadline(d: Option<Instant>, shift: int): Option<Instant> {
    if d.Some? then Some(d.value + shift) else None
  }

  /** SET with EX or PX, EXPIRE and PEXPIRE, with arguments they accept: the time they give, in nanoseconds. */
  function RelativeTtl(c: Command): (r: Option<nat>)
    ensures r.Some? ==> |c.args| >= 2
  {
    var v := Lookup(c.name);
    if v == SET && |c.args| >= 2 && IsUtf8(c.args[0]) then
      match SetOptionsOf(c.args[2..], NO_OPTIONS)
      case Rejected(_) => None
      case Picked(o) =>
        if o.ttl.Seconds? then Some(o.ttl.n * SECOND)
        else if o.ttl.Milliseconds? then Some(o.ttl.n * MS)
        else None
    else if (v == EXPIRE || v == PEXPIRE) && 2 <= |c.args| <= 3 && IsUtf8(c.args[0]) && IsUtf8(c.args[1])
            && ExpireFlagOf(c.args[2..]).Picked?
    then
      match ParseUnsigned(c.args[1], U64_MAX)
      case None => None
      case Some(n) => Some(n * if v == EXPIRE then SECOND else MS)
    else None
  }

  /** Whether such a command, run at this absolute time on these keys, sets a deadline. */
  predicate SetsDeadline(c: Command, ks: Keys, t: int)
    requires RelativeTtl(c).Some?
  {
    var key := c.args[0];
    if Lookup(c.name) == SET then Allows(SetOptionsOf(c.args[2..], NO_OPTIONS).value.existence, key in ks)
    else ExpireApplies(ks, key, t + RelativeTtl(c).value, ExpireFlagOf(c.args[2..]).value)
  }

  /** What it leaves, all in absolute time. */
  function Leaves(c: Command, ks: Keys, t: int): Keys
    requires RelativeTtl(c).Some?
  {
    var key := c.args[0];
    if !SetsDeadline(c, ks, t) then ks
    else
      var value := if Lookup(c.name) == SET then Str(c.args[1]) else ks[key].value;
      ks[key := Entry(value, Some(t + RelativeTtl(c).value))]
  }

  lemma MovedUpdate(ks: Keys, key: Key, e: Entry, shift: int)
    ensures Moved(ks[key := e], shift) == Moved(ks, shift)[key := Entry(e.value, MovedDeadline(e.deadline, shift))]
  {
  }

  lemma MovedBack(ks: Keys, shift: int)
    ensures Moved(Moved(ks, -shift), shift) == ks
  {
  }

  lemma SetRuns(c: Command, ks: Keys, at: Clock)
    requires RelativeTtl(c).Some? && Lookup(c.name) == SET
    ensures Exec(c, ks, at).keys
            == SetKey(ks, c.args[0], Str(c.args[1]), At(at.instant + RelativeTtl(c).value), ExistenceOf(c))
  {
    hide Lookup, IsUtf8, SetOptionsOf, Display, ExecQuiet, SetKey;
  }

  function ExistenceOf(c: Command): Existence
    requires RelativeTtl(c).Some? && Lookup(c.name) == SET
  {
    SetOptionsOf(c.args[2..], NO_OPTIONS).value.existence
  }

  lemma SetLeaves(c: Command, ks: Keys, t: nat, boot: int)
    requires RelativeTtl(c).Some? && Lookup(c.name) == SET
    ensures Moved(Exec(c, Moved(ks, -boot), Shared(t, boot)).keys, boot) == Leaves(c, ks, t)
  {
    hide Lookup, IsUtf8, SetOptionsOf, Exec, RelativeTtl;
    MovedBack(ks, boot);
    var own := Moved(ks, -boot);
    SetRuns(c, own, Shared(t, boot));
    MovedUpdate(own, c.args[0], Entry(Str(c.args[1]), Some(t - boot + RelativeTtl(c).value)), boot);
  }

  lemma ExpireRuns(c: Command, ks: Keys, at: Clock)
    requires RelativeTtl(c).Some? && Lookup(c.name) != SET
    ensures Exec(c, ks, at).keys
            == ExpireKey(ks, c.args[0], at.instant + RelativeTtl(c).value, ExpireFlagOf(c.args[2..]).value)
  {
    hide Lookup, IsUtf8, ExpireFlagOf, ParseUnsigned, ExecQuiet, ExpireKey, ExpireApplies;
  }

  lemma MovedExpire(ks: Keys, key: Key, deadline: Instant, flag: ExpireFlag, shift: int)
    ensures Moved(ExpireKey(Moved(ks, -shift), key, deadline, flag), shift)
            == ExpireKey(ks, key, deadline + shift, flag)
  {
    MovedBack(ks, shift);
    var own := Moved(ks, -shift);
    if key in ks {
      MovedUpdate(own, key, own[key].(deadline := Some(deadline)), shift);
    }
  }

  lemma ExpireLeaves(c: Command, ks: Keys, t: nat, boot: int)
    requires RelativeTtl(c).Some? && Lookup(c.name) != SET
    ensures Moved(Exec(c, Moved(ks, -boot), Shared(t, boot)).keys, boot) == Leaves(c, ks, t)
  {
    hide Lookup, IsUtf8, ExpireFlagOf, ParseUnsigned, Exec, Moved, RelativeTtl;
    ExpireRuns(c, Moved(ks, -boot), Shared(t, boot));
    MovedExpire(ks, c.args[0], t - boot + RelativeTtl(c).value, FlagOf(c), boot);
  }

  function FlagOf(c: Command): ExpireFlag
    requires RelativeTtl(c).Some? && Lookup(c.name) != SET
  {
    ExpireFlagOf(c.args[2..]).value
  }

  /**
   * A relative deadline is counted again from the time of replay: executing the
   * command and replaying it elsewhere leave the same store exactly when it sets
   * no deadline either time, or both happen at the same absolute time.
   */
  lemma Reanchored(c: Command, ks: Keys, t: nat, boot: int, t': nat, boot': int)
    requires RelativeTtl(c).Some?
    ensures Moved(Exec(c, Moved(ks, -boot), Shared(t, boot)).keys, boot)
            == Moved(ReplayExec(c, Moved(ks, -boot'), Shared(t', boot')), boot')
            <==> t == t' || (!SetsDeadline(c, ks, t) && !SetsDeadline(c, ks, t'))
  {
    hide Lookup, Exec, IsUtf8, RelativeTtl, Leaves, SetsDeadline, Moved;
    IsAMutation(c);
    ReplayRunsMutations(c, Moved(ks, -boot'), Shared(t', boot'));
    if Lookup(c.name) == SET {
      SetLeaves(c, ks, t, boot);
      SetLeaves(c, ks, t', boot');
    } else {
      ExpireLeaves(c, ks, t, boot);
      ExpireLeaves(c, ks, t', boot');
    }
    LeavesIff(c, ks, t, t');
  }

  lemma IsAMutation(c: Command)
    requires RelativeTtl(c).Some?
    ensures IsMutation(Lookup(c.name))
  {
    hide Lookup, IsUtf8, SetOptionsOf, ExpireFlagOf, ParseUnsigned;
  }

  lemma LeavesIff(c: Command, ks: Keys, t: int, t': int)
    requires RelativeTtl(c).Some?
    ensures Leaves(c, ks, t) == Leaves(c, ks, t') <==> t == t' || (!SetsDeadline(c, ks, t) && !SetsDeadline(c, ks, t'))
  {
    hide Lookup, IsUtf8, SetOptionsOf, ExpireFlagOf, ParseUnsigned;
    var key := c.args[0];
    if SetsDeadline(c, ks, t) {
      assert Leaves(c, ks, t)[key].deadline == Some(t + RelativeTtl(c).value);
    }
    if SetsDeadline(c, ks, t') {
      assert Leaves(c, ks, t')[key].deadline == Some(t' + RelativeTtl(c).value);
    }
  }
}
