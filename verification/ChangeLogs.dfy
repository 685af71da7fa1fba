/**
 The change log: every commit since the last drain, replayable one op at a time.
 */
module ChangeLogs {
  import opened Base
  import opened EditBatches
  import opened Transactions

  /** How many undrained commits the log holds before it breaks. */
  const CHANGE_LOG_CAP: nat := 1024

  datatype Snapshot = Snapshot(text: Text, revision: nat)

  /** One commit: the document just before it, and its ops for sequential replay. */
  datatype Change = Change(before: Snapshot, ops: Batch)

  /** Everything recorded since the previous drain; `from` is `None` when the chain is broken. */
  datatype Changes = Changes(from: Option<nat>, entries: seq<Change>)

  /** The text an entry must lead to: the next entry's, or the live one. */
  function NextText(entries: seq<Change>, i: nat, live: Text): Text
    requires i < |entries|
  {
    if i + 1 < |entries| then entries[i + 1].before.text else live
  }

  /** Entry `i` starts at revision `from + i`, and its ops, replayed in order on its snapshot, give the
      next entry's text; the last reaches the live text. */
  ghost predicate EntryLinks(entries: seq<Change>, from: nat, live: Text, i: nat)
    requires i < |entries|
  {
    entries[i].before.revision == from + i
    && Sequential(entries[i].before.text, entries[i].ops, NextText(entries, i, live))
  }

  /** A complete chain from revision `from` to the live document. */
  ghost predicate IsChain(entries: seq<Change>, from: nat, live: Text, revision: nat) {
    && revision == from + |entries|
    && forall i | 0 <= i < |entries| :: EntryLinks(entries, from, live, i)
  }

  /** A commit on the live text extends the chain. */
  lemma {:induction false} ChainGrows(entries: seq<Change>, from: nat, live: Text, revision: nat, ops: Batch,
                                      after: Text)
    requires IsChain(entries, from, live, revision) && Sequential(live, ops, after)
    ensures IsChain(entries + [Change(Snapshot(live, revision), ops)], from, after, revision + 1)
  {
    hide Sequential;
    var w := entries + [Change(Snapshot(live, revision), ops)];
    forall i | 0 <= i < |w| ensures EntryLinks(w, from, after, i) {
      if i < |entries| { assert EntryLinks(entries, from, live, i); }
    }
  }

  class ChangeLog {
    var on: bool

    /** Where the chain starts; none while off or broken. */
    var from: Option<nat>

    var entries: seq<Change>

    /** Consistent with the live document. */
    ghost predicate Valid(live: Text, revision: nat)
      reads this
    {
      && (!on ==> from == None) && (from == None ==> entries == []) && |entries| <= CHANGE_LOG_CAP
      && (from.Some? ==> IsChain(entries, from.value, live, revision))
    }

    constructor ()
      ensures !on && from == None && entries == []
    {
      on, from, entries := false, None, [];
    }

    /** The snapshot a commit will need, if anything will be logged. */
    method Capture(buffer: Buffer) returns (before: Option<Snapshot>)
      ensures before == if on && from.Some? then Some(Snapshot(buffer.text, buffer.revision)) else None
    {
      before := if on && from.Some? then Some(Snapshot(buffer.text, buffer.revision)) else None;
    }

    /** Log one committed batch; a full log breaks instead. */
    method Record(before: Snapshot, applied: Batch)
      requires Valid(before.text, before.revision) && InOrder(applied, 0, |before.text|)
      modifies this`from, this`entries
      ensures Valid(Applied(before.text, applied), before.revision + 1)
      ensures from == (if |old(entries)| >= CHANGE_LOG_CAP then None else old(from))
      ensures entries == if old(from).None? || |old(entries)| >= CHANGE_LOG_CAP then []
                         else old(entries) + [Change(before, Reversed(applied))]
    {
      hide Sequential, InOrder, Rebuilt, Reversed;
      if from.None? { return; }
      if |entries| >= CHANGE_LOG_CAP {
        entries, from := [], None;
        return;
      }
      ReversedReplays(before.text, applied, 0);
      assert before.text[..0] + Rebuilt(before.text, applied, 0) == Applied(before.text, applied);
      ChainGrows(entries, from.value, before.text, before.revision, Reversed(applied), Applied(before.text, applied));
      var reversed := ReverseOps(applied);
      entries := entries + [Change(before, reversed)];
    }

    /** Turn the log on, starting a fresh chain here, or off, dropping what is pending. */
    method Set(enabled: bool, live: Text, revision: nat)
      modifies this
      ensures Valid(live, revision) && on == enabled && entries == [] && from == if enabled then Some(revision)
              else None
    {
      on, entries := enabled, [];
      from := if enabled then Some(revision) else None;
    }

    /** Hand out everything since the last drain.  When it names a start, the entries are a complete
        chain from there to the live document; the next chain starts here. */
    method Drain(live: Text, revision: nat) returns (changes: Changes)
      requires Valid(live, revision)
      modifies this`from, this`entries
      ensures Valid(live, revision) && entries == [] && from == if on then Some(revision) else None
      ensures changes == Changes(old(from), old(entries))
      ensures changes.from.Some? ==> IsChain(changes.entries, changes.from.value, live, revision)
      ensures changes.from.None? ==> changes.entries == []
    {
      changes := Changes(from, entries);
      entries := [];
      if on { from := Some(revision); }
    }
  }

  /** A batch for sequential replay: back to front. */
  method ReverseOps(ops: Batch) returns (r: Batch)
    ensures r == Reversed(ops)
  {
    hide Reversed;
    r := [];
    ReversedNothing();
    for i := 0 to |ops|
      invariant r == Reversed(ops[|ops| - i..])
    {
      var k := |ops| - i - 1;
      ReversedSuffix(ops, k);
      r := r + [ops[k]];
    }
    assert ops[0..] == ops;
  }

  lemma {:induction false} ReversedNothing()
    ensures Reversed([]) == []
  {}

  lemma {:induction false} ReversedSuffix(ops: Batch, k: nat)
    requires k < |ops|
    ensures Reversed(ops[k..]) == Reversed(ops[k + 1..]) + [ops[k]]
  {
    assert ops[k..][1..] == ops[k + 1..];
  }
}
