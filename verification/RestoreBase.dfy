/** Restoring a base into another one: document by document, under ids derived from
    both bases, so that a crashed restore can be run again. */
module RestoreBase {
  import opened Text
  import opened Keyset
  import opened Wrappers

  /** A source document; text is its raw text or, failing that, its joined chunks. */
  datatype Source = Source(directory: bool, file: bool, bytes: string, text: string)

  datatype Restored = Restored(ready: bool, content: string)

  datatype Outcome = Completed | Crashed | MissingRaw

  const PAGE_SIZE := 50

  /** A file whose raw bytes are gone stops the restore. */
  predicate Broken(s: Source) { !s.directory && s.file && s.bytes == "" }

  /** What a source contributes; directories and blank texts contribute nothing. */
  predicate Restorable(s: Source) { !s.directory && if s.file then s.bytes != "" else TrimSpace(s.text) != "" }

  function ContentOf(s: Source): string { if s.file then s.bytes else s.text }

  /** The id a source document gets in the target base. */
  type Naming = Key -> nat

  /** The target ids the restore is about. */
  ghost function Ours(source: map<Key, Source>, idOf: Naming): set<nat> {
    set k | k in source && Restorable(source[k]) :: idOf(k)
  }

  predicate Ready(target: map<nat, Restored>, id: nat) { id in target && target[id].ready }

  /** A ready copy with the content the source has now: the bytes of a file, the text of anything else. */
  predicate Copied(target: map<nat, Restored>, id: nat, s: Source) {
    id in target && target[id].ready && target[id].content == if s.file then s.bytes else s.text
  }

  predicate Settled(target: map<nat, Restored>, id: nat, s: Source) {
    Ready(target, id) || (!Broken(s) && !Restorable(s))
  }

  /** A file whose bytes are gone, and of which there is no copy to keep. */
  predicate Blocked(target: map<nat, Restored>, id: nat, s: Source) { Broken(s) && !Ready(target, id) }

  /** What may happen to the target: ready rows stay as they are, only rows of restorable
      sources come in, and new copies hold what the source has. */
  ghost predicate Grew(source: map<Key, Source>, idOf: Naming, before: map<nat, Restored>, after: map<nat, Restored>) {
    && before.Keys <= after.Keys <= before.Keys + Ours(source, idOf)
    && (forall i <- before :: before[i].ready || i !in Ours(source, idOf) ==> after[i] == before[i])
    && forall k <- source :: Ready(after, idOf(k)) ==>
         Ready(before, idOf(k)) || (Restorable(source[k]) && Copied(after, idOf(k), source[k]))
  }

  lemma GrewOn(source: map<Key, Source>, idOf: Naming, a: map<nat, Restored>, m: map<nat, Restored>,
               z: map<nat, Restored>)
    requires Grew(source, idOf, a, m) && Grew(source, idOf, m, z)
    ensures Grew(source, idOf, a, z)
  {
    hide Ours, Restorable, ContentOf;
  }

  lemma StaysSettled(source: map<Key, Source>, idOf: Naming, before: map<nat, Restored>, after: map<nat, Restored>,
                     k: Key)
    requires k in source && Grew(source, idOf, before, after) && Settled(before, idOf(k), source[k])
    ensures Settled(after, idOf(k), source[k])
  {
    hide Ours, Restorable, Broken;
  }

  lemma IngestedGrew(source: map<Key, Source>, idOf: Naming, target: map<nat, Restored>, k: Key, row: Restored)
    requires forall a: Key, b: Key :: idOf(a) == idOf(b) ==> a == b
    requires k in source && Restorable(source[k]) && !Ready(target, idOf(k))
    requires row == Restored(true, ContentOf(source[k])) || row == Restored(false, "")
    ensures Grew(source, idOf, target, target[idOf(k) := row])
  {
    hide Restorable;
  }

  lemma NothingGrew(source: map<Key, Source>, idOf: Naming, target: map<nat, Restored>)
    ensures Grew(source, idOf, target, target)
  {
  }

  class Restore {
    var source: map<Key, Source>
    const idOf: Naming
    var target: map<nat, Restored>

    constructor (rows: map<Key, Source>, naming: Naming, existing: map<nat, Restored>)
      ensures source == rows && idOf == naming && target == existing
    {
      source, idOf, target := rows, naming, existing;
    }

    /** Different source documents get different ids. */
    ghost predicate Valid() { forall a: Key, b: Key :: idOf(a) == idOf(b) ==> a == b }

    /** One document. A ready copy is kept, whatever has become of its source; otherwise
        the source is ingested, and a crash may leave an unready row behind. */
    method RestoreDocument(k: Key, crash: bool) returns (outcome: Outcome)
      requires Valid() && k in source && !source[k].directory
      modifies this`target
      ensures Grew(source, idOf, old(target), target)
      ensures outcome == Completed ==> Settled(target, idOf(k), source[k])
      ensures outcome == MissingRaw <==> Blocked(old(target), idOf(k), source[k])
      ensures outcome == MissingRaw ==> target == old(target)
      ensures outcome == Crashed ==> crash
    {
      hide Grew;
      var id := idOf(k);
      NothingGrew(source, idOf, target);
      if id in target && target[id].ready {
        return Completed;
      }
      var s := source[k];
      if s.file && s.bytes == "" {
        return MissingRaw;
      }
      if !s.file && TrimSpace(s.text) == "" {
        return Completed;
      }
      var row := if crash then Restored(false, "") else Restored(true, ContentOf(s));
      IngestedGrew(source, idOf, target, k, row);
      target := target[id := row];
      return if crash then Crashed else Completed;
    }

    /** The documents of one page, in order, up to an error or the crash. */
    method RestorePage(page: seq<Key>, crashAt: Option<Key>) returns (outcome: Outcome)
      requires Valid() && forall i :: 0 <= i < |page| ==> page[i] in source
      modifies this`target
      ensures Grew(source, idOf, old(target), target)
      ensures outcome == Completed ==>
        forall i :: 0 <= i < |page| ==> source[page[i]].directory || Settled(target, idOf(page[i]), source[page[i]])
      ensures outcome == MissingRaw ==> exists i :: 0 <= i < |page| && Blocked(target, idOf(page[i]), source[page[i]])
      ensures outcome == Crashed ==> crashAt.Some?
    {
      hide Restorable, Broken, ContentOf, Grew, Settled, Blocked;
      NothingGrew(source, idOf, target);
      for i := 0 to |page|
        invariant Grew(source, idOf, old(target), target)
        invariant forall j :: 0 <= j < i ==>
          source[page[j]].directory || Settled(target, idOf(page[j]), source[page[j]])
      {
        if !source[page[i]].directory {
          ghost var before := target;
          outcome := RestoreDocument(page[i], crashAt == Some(page[i]));
          GrewOn(source, idOf, old(target), before, target);
          if outcome != Completed {
            return outcome;
          }
          forall j | 0 <= j < i && !source[page[j]].directory
            ensures Settled(target, idOf(page[j]), source[page[j]])
          {
            StaysSettled(source, idOf, before, target, page[j]);
          }
        }
      }
      return Completed;
    }

    /** One attempt, which crashes while ingesting one of the documents, or never. It
        completes if and only if no file without a ready copy has lost its bytes. Then every
        restorable source has a ready copy: the one it had, or one with its content. */
    method RestoreAll(crashAt: Option<Key>) returns (outcome: Outcome)
      requires Valid()
      modifies this`target
      ensures Grew(source, idOf, old(target), target)
      ensures outcome == Completed ==> forall k <- source :: !Blocked(target, idOf(k), source[k])
      ensures outcome == MissingRaw ==> exists k <- source :: Blocked(target, idOf(k), source[k])
      ensures outcome == Crashed ==> crashAt.Some?
      ensures outcome == Completed ==> AllCopied(source, idOf, old(target), target)
    {
      hide TrimSpace, IsPage, Restorable, Broken, ContentOf, Grew, Settled, Blocked, AllCopied;
      var after: Option<Key> := None;
      ghost var ahead := source.Keys;
      NothingGrew(source, idOf, target);
      while true
        invariant Grew(source, idOf, old(target), target)
        invariant ahead == set k | k in source && IsAfter(k, after)
        invariant forall k <- source :: k !in ahead ==> source[k].directory || Settled(target, idOf(k), source[k])
        decreases ahead
      {
        var page := NextPage(source.Keys, after, PAGE_SIZE);
        PageFacts(source.Keys, after, page, PAGE_SIZE);
        if page == [] {
          assert forall k <- source :: source[k].directory || Settled(target, idOf(k), source[k]);
          SettledIsCopied(source, idOf, old(target), target);
          return Completed;
        }
        ghost var before := target;
        outcome := RestorePage(page, crashAt);
        GrewOn(source, idOf, old(target), before, target);
        if outcome != Completed {
          return outcome;
        }
        forall k | k in source && k !in ahead && !source[k].directory
          ensures Settled(target, idOf(k), source[k])
        {
          StaysSettled(source, idOf, before, target, k);
        }
        assert page[|page| - 1] in ahead;
        after := Some(page[|page| - 1]);
        ahead := set k | k in source && IsAfter(k, after);
      }
    }

    /** Any number of crashed attempts, between which the sources may change, then one left
        alone, unless an earlier one ends by itself. Rows there were stay, ready ones as they
        are; new rows are of sources the attempts made found restorable, one for each. */
    method RestoreWithRetries(crashes: seq<Key>, versions: seq<map<Key, Source>>)
      returns (outcome: Outcome, ghost attempts: nat)
      requires Valid() && |versions| == |crashes| + 1
      modifies this
      ensures outcome != Crashed && 0 < attempts <= |versions| && source == versions[attempts - 1]
      ensures outcome == Completed <==> forall k <- source :: !Blocked(target, idOf(k), source[k])
      ensures outcome == Completed ==> forall k <- source :: Restorable(source[k]) ==> Ready(target, idOf(k))
      ensures FromAttempts(versions[..attempts], idOf, old(target), target)
    {
      hide Restorable, Blocked, FromAttempts, Ready;
      NoAttemptYet(versions[..0], idOf, target);
      for i := 0 to |crashes|
        invariant FromAttempts(versions[..i], idOf, old(target), target)
      {
        source, attempts := versions[i], i + 1;
        OneMoreVersion(versions, i, idOf, old(target), target);
        outcome := Attempt(Some(crashes[i]), versions[..i + 1], old(target));
        if outcome != Crashed {
          return;
        }
      }
      source, attempts := versions[|crashes|], |versions|;
      OneMoreVersion(versions, |crashes|, idOf, old(target), target);
      outcome := Attempt(None, versions[..|versions|], old(target));
    }

    method Attempt(crashAt: Option<Key>, ghost versions: seq<map<Key, Source>>, ghost existing: map<nat, Restored>)
      returns (outcome: Outcome)
      requires Valid() && source in versions && FromAttempts(versions, idOf, existing, target)
      modifies this`target
      ensures FromAttempts(versions, idOf, existing, target)
      ensures outcome == Completed ==> forall k <- source :: !Blocked(target, idOf(k), source[k])
      ensures outcome == Completed ==> forall k <- source :: Restorable(source[k]) ==> Ready(target, idOf(k))
      ensures outcome == MissingRaw ==> exists k <- source :: Blocked(target, idOf(k), source[k])
      ensures outcome == Crashed ==> crashAt.Some?
    {
      hide Restorable, Blocked, FromAttempts, Grew;
      ghost var before := target;
      outcome := RestoreAll(crashAt);
      OneMoreAttempt(versions, idOf, existing, before, target, source);
    }
  }

  /** Every restorable source has a ready copy: the one it had, or one with its content. */
  ghost predicate AllCopied(source: map<Key, Source>, idOf: Naming, before: map<nat, Restored>,
                            after: map<nat, Restored>) {
    && after.Keys == before.Keys + Ours(source, idOf)
    && forall k <- source :: Restorable(source[k]) ==>
         && Ready(after, idOf(k))
         && if Ready(before, idOf(k)) then after[idOf(k)] == before[idOf(k)] else Copied(after, idOf(k), source[k])
  }

  lemma SettledIsCopied(source: map<Key, Source>, idOf: Naming, before: map<nat, Restored>, after: map<nat, Restored>)
    requires Grew(source, idOf, before, after)
    requires forall k <- source :: source[k].directory || Settled(after, idOf(k), source[k])
    ensures AllCopied(source, idOf, before, after)
    ensures forall k <- source :: !Blocked(after, idOf(k), source[k])
  {
    forall k | k in source && Restorable(source[k])
      ensures Ready(after, idOf(k))
    {
      assert Settled(after, idOf(k), source[k]);
    }
  }

  /** No row is gone and no ready one changed; a new row is of a source that some attempt
      found restorable; and a ready row was there before or holds what its source had then. */
  ghost predicate FromAttempts(versions: seq<map<Key, Source>>, idOf: Naming,
                               existing: map<nat, Restored>, target: map<nat, Restored>)
  {
    && existing.Keys <= target.Keys
    && (forall i <- existing :: existing[i].ready ==> target[i] == existing[i])
    && (forall i <- target :: i in existing || exists v <- versions :: i in Ours(v, idOf))
    && forall i <- target :: target[i].ready ==>
         || (i in existing && target[i] == existing[i])
         || exists v <- versions :: FromVersion(v, idOf, i, target[i])
  }

  ghost predicate FromVersion(v: map<Key, Source>, idOf: Naming, i: nat, row: Restored) {
    exists k <- v ::
      Restorable(v[k]) && idOf(k) == i && row.content == if v[k].file then v[k].bytes else v[k].text
  }

  lemma NoAttemptYet(versions: seq<map<Key, Source>>, idOf: Naming, target: map<nat, Restored>)
    ensures FromAttempts(versions, idOf, target, target)
  {
  }

  lemma OneMoreVersion(versions: seq<map<Key, Source>>, i: nat, idOf: Naming,
                       existing: map<nat, Restored>, target: map<nat, Restored>)
    requires i < |versions| && FromAttempts(versions[..i], idOf, existing, target)
    ensures FromAttempts(versions[..i + 1], idOf, existing, target) && versions[i] in versions[..i + 1]
  {
    hide Ours, FromVersion;
    assert versions[..i + 1] == versions[..i] + [versions[i]];
    assert forall v <- versions[..i] :: v in versions[..i + 1];
  }

  lemma OneMoreAttempt(versions: seq<map<Key, Source>>, idOf: Naming, existing: map<nat, Restored>,
                       before: map<nat, Restored>, after: map<nat, Restored>, source: map<Key, Source>)
    requires FromAttempts(versions, idOf, existing, before) && source in versions && Grew(source, idOf, before, after)
    ensures FromAttempts(versions, idOf, existing, after)
  {
    hide Restorable, ContentOf;
    forall i | i in after && after[i].ready && (i !in before || after[i] != before[i])
      ensures FromVersion(source, idOf, i, after[i])
    {
      assert i in Ours(source, idOf);
      var k :| k in source && Restorable(source[k]) && idOf(k) == i;
      assert Copied(after, idOf(k), source[k]);
    }
  }

  /** A page's rows are ahead; the rest is ahead of the next page; an empty page is the end. */
  lemma PageFacts(rows: set<Key>, after: Option<Key>, page: seq<Key>, limit: nat)
    requires IsPage(rows, after, page, limit) && limit > 0
    ensures forall i :: 0 <= i < |page| ==> page[i] in rows && IsAfter(page[i], after)
    ensures page == [] ==> forall k <- rows :: !IsAfter(k, after)
    ensures page != [] ==>
      var next := Some(page[|page| - 1]);
      && !IsAfter(page[|page| - 1], next)
      && (forall k <- rows :: IsAfter(k, next) ==> IsAfter(k, after))
      && (forall k <- rows :: IsAfter(k, after) ==> IsAfter(k, next) || k in page)
  {
  }
}
