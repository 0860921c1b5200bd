/**
 Expiry (src/memtable/memtable.rs:108-155, 721-743): compaction drops rows older than a cutoff that moves with the
 clock, and `get` hides them. With a fixed TTL and a clock that never goes back no such read can tell the difference.
 */
module Ttl {
  import opened Rows
  import opened Machine
  import opened Safety

  /** 64-bit signed subtraction that stops at the ends of the range. */
  function SaturatingSub(a: I64, b: I64): (c: I64)
    ensures c == a - b || (c == I64_MAX && a - b > I64_MAX) || (c == I64_MIN && a - b < I64_MIN)
  {
    if a - b > I64_MAX then I64_MAX else if a - b < I64_MIN then I64_MIN else a - b
  }

  /** The smallest TTL value stands for no TTL. */
  function Cutoff(ttl: I64, now: I64): Option<I64> {
    if ttl == I64_MIN then None else Some(SaturatingSub(now, ttl))
  }

  /** The TTL, added to the key's time in unbounded arithmetic, does not reach now; the largest time never gets old. */
  ghost predicate TooOld(k: Key, ttl: I64, now: I64) {
    ttl != I64_MIN && k.ts + ttl < now && k.ts < I64_MAX
  }

  /** What the saturating subtraction amounts to. */
  lemma ExpiredIff(k: Key, ttl: I64, now: I64)
    ensures Expired(k, Bound(Cutoff(ttl, now))) <==> TooOld(k, ttl, now)
  {
  }

  /** What a read clamped by the cutoff returns. */
  function ClampedGet(m: map<Key, Row>, k: Key, cutoff: I64): Option<Bytes> {
    if Expired(k, cutoff) || k !in m then None else m[k].value
  }

  lemma ClampedGetIff(rows: seq<Row>, k: Key, ttl: I64, now: I64)
    ensures forall x :: ClampedGet(NewestMap(rows), k, Bound(Cutoff(ttl, now))) == Some(x)
                        <==> !TooOld(k, ttl, now) && HasValue(rows, k, x)
  {
    ExpiredIff(k, ttl, now);
    forall x
      ensures ClampedGet(NewestMap(rows), k, Bound(Cutoff(ttl, now))) == Some(x) <==> !TooOld(k, ttl, now) && HasValue(rows, k, x)
    {
      HasValueIff(rows, k, x);
    }
  }

  /** What has expired stays expired. */
  lemma ExpiredStays(k: Key, ttl: I64, now: I64, later: I64)
    requires now <= later && Expired(k, Bound(Cutoff(ttl, now)))
    ensures Expired(k, Bound(Cutoff(ttl, later)))
  {
  }

  /** `clock[i]` is the time of the step `ls[i]`: every compaction takes its cutoff from it, and it has not passed `now`. */
  ghost predicate Clocked(ls: seq<Label>, clock: seq<I64>, ttl: I64, now: I64) {
    && |clock| == |ls|
    && forall i | 0 <= i < |ls| ::
         clock[i] <= now && (ls[i].CompactStart? ==> ls[i].cutoff == Bound(Cutoff(ttl, clock[i])))
  }

  lemma ClockedCutoffs(ls: seq<Label>, clock: seq<I64>, ttl: I64, now: I64)
    requires Clocked(ls, clock, ttl, now)
    ensures CutoffsUpTo(ls, Bound(Cutoff(ttl, now)))
  {
    forall l | l in ls && l.CompactStart? ensures l.cutoff <= Bound(Cutoff(ttl, now)) {
      var i :| 0 <= i < |ls| && ls[i] == l;
      assert clock[i] <= now;
    }
  }

  lemma SameClamped(a: map<Key, Row>, b: map<Key, Row>, k: Key, cutoff: I64)
    requires View(a, cutoff) == View(b, cutoff)
    ensures ClampedGet(a, k, cutoff) == ClampedGet(b, k, cutoff)
  {
    if !Expired(k, cutoff) {
      assert k in a <==> k in View(a, cutoff);
      assert k in b <==> k in View(b, cutoff);
    }
  }

  /**
   After any run from the first open, with expiring compactions at any of its steps, writers in flight, transactions,
   crashes and reopenings in between, a clamped read sees what it would see had nothing ever been dropped: also where a
   merge has left no file behind, so that stale files are adopted again and numbers are used twice.
   */
  lemma ExpiryIsInvisible(ls: seq<Label>, clock: seq<I64>, ttl: I64, now: I64, k: Key)
    requires Runs(INITIAL, ls) && Run(INITIAL, ls).process.Up? && Clocked(ls, clock, ttl, now)
    ensures var cutoff := Bound(Cutoff(ttl, now));
            ClampedGet(Visible(Run(INITIAL, ls).process.live), k, cutoff)
            == ClampedGet(NewestMap(AddsOf(INITIAL, ls)), k, cutoff)
    ensures forall x :: ClampedGet(Visible(Run(INITIAL, ls).process.live), k, Bound(Cutoff(ttl, now))) == Some(x)
                        <==> !TooOld(k, ttl, now) && HasValue(AddsOf(INITIAL, ls), k, x)
  {
    var cutoff := Bound(Cutoff(ttl, now));
    ClockedCutoffs(ls, clock, ttl, now);
    CrashConsistency(ls, cutoff);
    SameClamped(Visible(Run(INITIAL, ls).process.live), NewestMap(AddsOf(INITIAL, ls)), k, cutoff);
    ClampedGetIff(AddsOf(INITIAL, ls), k, ttl, now);
  }

  /** The worker, readers, crashes and reopenings change no clamped read, whatever they drop. */
  lemma CompactionKeepsUnexpired(s: State, ls: seq<Label>, clock: seq<I64>, ttl: I64, now: I64, k: Key)
    requires Reachable(s) && s.process.Up? && s.floor <= Bound(Cutoff(ttl, now))
    requires Runs(s, ls) && (forall l | l in ls :: Internal(l)) && Run(s, ls).process.Up? && Clocked(ls, clock, ttl, now)
    ensures var cutoff := Bound(Cutoff(ttl, now));
            ClampedGet(Visible(Run(s, ls).process.live), k, cutoff) == ClampedGet(Visible(s.process.live), k, cutoff)
  {
    var cutoff := Bound(Cutoff(ttl, now));
    var s' := Run(s, ls);
    ClockedCutoffs(ls, clock, ttl, now);
    FloorUpTo(s, ls, cutoff);
    InternalStepsKeepMap(s, ls);
    ViewNarrows(Visible(s'.process.live), Visible(s.process.live), s'.floor, cutoff);
    SameClamped(Visible(s'.process.live), Visible(s.process.live), k, cutoff);
  }
}
