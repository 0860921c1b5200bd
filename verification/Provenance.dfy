/**
 Where the rows of the history come from: whatever the interleaving, a row is durable only because a writer asked for it,
 and what a writer asked for is what becomes durable.
 */
module Provenance {
  import opened Rows
  import opened Machine
  import opened Safety

  /** Some writer of the run asked to store this value, or a tombstone, under this key. */
  ghost predicate Asked(ls: seq<Label>, k: Key, v: Option<Bytes>) {
    exists i :: 0 <= i < |ls| && Asks(ls[i], k, v)
  }

  ghost predicate Asks(l: Label, k: Key, v: Option<Bytes>) {
    match l
    case Allocate(key, value) => key == k && value == v
    case WriteBatch(entries) => (k, v) in entries
    case TxnWrite(_, key, value) => key == k && value == v
    case _ => false
  }

  /** Every value in the history and on its way there is a wanted one. */
  ghost predicate AllWanted(s: State, wanted: (Key, Option<Bytes>) -> bool) {
    && (forall r | r in s.hist :: wanted(r.key, r.value))
    && (s.process.Up? ==>
          && (forall w | w in s.process.live.writers :: wanted(s.process.live.writers[w].0, s.process.live.writers[w].1))
          && (forall t | t in s.process.live.txns :: BufferWanted(s.process.live.txns[t], wanted)))
  }

  ghost predicate BufferWanted(t: Txn, wanted: (Key, Option<Bytes>) -> bool) {
    forall k | k in t.writes :: wanted(k, t.writes[k])
  }

  lemma NumberedWanted(entries: seq<(Key, Option<Bytes>)>, start: nat, wanted: (Key, Option<Bytes>) -> bool)
    requires forall i | 0 <= i < |entries| :: wanted(entries[i].0, entries[i].1)
    ensures forall r | r in Numbered(entries, start) :: wanted(r.key, r.value)
  {
  }

  /** A step that adds rows adds wanted ones. */
  lemma AddsWanted(s: State, l: Label, wanted: (Key, Option<Bytes>) -> bool)
    requires AllWanted(s, wanted) && Enabled(s, l) && forall k, v | Asks(l, k, v) :: wanted(k, v)
    ensures forall r | r in Adds(s, l) :: wanted(r.key, r.value)
  {
    if s.process.Up? && l.WriteBatch? {
      forall i | 0 <= i < |l.entries| ensures wanted(l.entries[i].0, l.entries[i].1) {
        assert l.entries[i] in l.entries && Asks(l, l.entries[i].0, l.entries[i].1);
      }
      NumberedWanted(l.entries, s.process.live.nextSeq, wanted);
    } else if s.process.Up? && l.CommitWrites? {
      var t := s.process.live.txns[l.txn];
      var entries := Entries(l.keys, t.writes);
      assert BufferWanted(t, wanted);
      forall i | 0 <= i < |entries| ensures wanted(entries[i].0, entries[i].1) {
        assert l.keys[i] in l.keys;
      }
      NumberedWanted(entries, s.process.live.nextSeq, wanted);
    }
  }

  /** And a running region takes up only wanted ones. */
  lemma WritersWanted(s: State, v: Live, l: Label, wanted: (Key, Option<Bytes>) -> bool)
    requires s.process == Up(v) && LiveEnabled(s, v, l) && LiveStep(s, v, l).process.Up?
    requires forall w | w in v.writers :: wanted(v.writers[w].0, v.writers[w].1)
    requires l.Allocate? ==> wanted(l.key, l.value)
    ensures var ws := LiveStep(s, v, l).process.live.writers; forall w | w in ws :: wanted(ws[w].0, ws[w].1)
  {
    if l.Allocate? || l.Insert? {
    } else {
      assert LiveStep(s, v, l).process.live.writers == v.writers;
    }
  }

  lemma BuffersWanted(s: State, v: Live, l: Label, wanted: (Key, Option<Bytes>) -> bool)
    requires s.process == Up(v) && LiveEnabled(s, v, l) && LiveStep(s, v, l).process.Up?
    requires forall t | t in v.txns :: BufferWanted(v.txns[t], wanted)
    requires l.TxnWrite? ==> wanted(l.key, l.value)
    ensures var txns := LiveStep(s, v, l).process.live.txns; forall t | t in txns :: BufferWanted(txns[t], wanted)
  {
    if TxnLabel(l) || l.CommitWrites? {
    } else {
      assert LiveStep(s, v, l).process.live.txns == v.txns;
    }
  }

  lemma StepWanted(s: State, l: Label, wanted: (Key, Option<Bytes>) -> bool)
    requires AllWanted(s, wanted) && Enabled(s, l) && forall k, v | Asks(l, k, v) :: wanted(k, v)
    ensures AllWanted(Step(s, l), wanted)
  {
    AddsWanted(s, l, wanted);
    AddsAre(s, l);
    if s.process.Up? && Step(s, l).process.Up? {
      assert l.Allocate? || l.TxnWrite? ==> Asks(l, l.key, l.value);
      WritersWanted(s, s.process.live, l, wanted);
      BuffersWanted(s, s.process.live, l, wanted);
    }
  }

  lemma {:induction false} RunWanted(s: State, ls: seq<Label>, wanted: (Key, Option<Bytes>) -> bool)
    requires AllWanted(s, wanted) && Runs(s, ls)
    requires forall i, k, v | 0 <= i < |ls| && Asks(ls[i], k, v) :: wanted(k, v)
    ensures AllWanted(Run(s, ls), wanted)
    decreases ls
  {
    if ls != [] {
      StepWanted(s, ls[0], wanted);
      forall i, k, v | 0 <= i < |ls| - 1 && Asks(ls[1..][i], k, v) ensures wanted(k, v) { assert ls[1..][i] == ls[i + 1]; }
      RunWanted(Step(s, ls[0]), ls[1..], wanted);
    }
  }

  /** Nothing is durable that no writer asked for: no value is made up or filed under another key. */
  lemma NothingInvented(ls: seq<Label>, r: Row)
    requires Runs(INITIAL, ls) && r in Run(INITIAL, ls).hist
    ensures Asked(ls, r.key, r.value)
  {
    RunWanted(INITIAL, ls, (k, v) => Asked(ls, k, v));
  }

  /** A number that is taken stays with its key and value until its row is inserted. */
  lemma {:induction false} NumberKept(s: State, ls: seq<Label>, n: nat)
    requires Runs(s, ls) && s.process.Up? && n in s.process.live.writers && n < s.process.live.nextSeq
    requires forall l | l in ls :: !l.Crash? && l != Insert(n)
    ensures var v := Run(s, ls).process;
            v.Up? && n in v.live.writers && v.live.writers[n] == s.process.live.writers[n] && n < v.live.nextSeq
    decreases ls
  {
    if ls != [] {
      assert ls[0] in ls;
      NumberKept(Step(s, ls[0]), ls[1..], n);
    }
  }

  /**
   A single write, whatever other writers, transactions and the worker do in between: the row that goes into the history,
   the active memtable and its log is the one that was asked for, under the number taken first.
   */
  lemma AllocatedIsInserted(s: State, key: Key, value: Option<Bytes>, ls: seq<Label>)
    requires s.process.Up? && Runs(s, [Allocate(key, value)] + ls)
    requires forall l | l in ls :: !l.Crash? && l != Insert(s.process.live.nextSeq)
    ensures var n, s' := s.process.live.nextSeq, Run(s, [Allocate(key, value)] + ls);
            && Enabled(s', Insert(n)) && s'.process.Up?
            && var after := Step(s', Insert(n));
               && after.process.Up? && after.hist == s'.hist + [Row(key, n, value)]
               && after.process.live.active == s'.process.live.active.(rows := s'.process.live.active.rows + [Row(key, n, value)])
               && after.disk.wals == s'.disk.wals[s'.process.live.active.id := after.process.live.active.rows]
  {
    var l := Allocate(key, value);
    assert ([l] + ls)[1..] == ls;
    NumberKept(Step(s, l), ls, s.process.live.nextSeq);
  }
}
