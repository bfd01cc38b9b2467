/** What a copy run does to the links it meets: linked entries are created
    before the entry that links to them, and an asset link stops the run
    before the linking entry is ever created. */
module CopyLinks {
  import opened Json
  import opened Entity
  import opened Failures
  import opened Links
  import opened Destination
  import opened CopySpec

  /** `log[from..n]` holds the creation of an entry whose id is `target`. */
  ghost predicate CreatedBetween(log: seq<Event>, from: nat, n: nat, target: Value) {
    exists i :: from <= i < n && i < |log| && log[i].EntryCreated? && target == Str(log[i].id)
  }

  /** An entry link copied during a stretch of entry-only writes that started
      at `st` points at an entry created in that stretch before the counter
      reached `hi`. */
  lemma TargetCreated(src: Space, lineage: seq<Value>, v: Value, w: Value,
                      st: DestState, hi: nat, log: seq<Event>)
    requires IsLinkOf(v, "Entry") && LinkCopied(src, lineage, v, w, st, hi, log)
    ensures CreatedBetween(log, |st.log|, |st.log| + (hi - st.issued), LinkTarget(w))
  {
    var c := CopyNo(w);
    LinkHasSys(v, "Entry");
    assert LinkTarget(w) == Str(IdOf(c));
    var i := |st.log| + (c - st.issued);
    assert log[i].EntryCreated? && LinkTarget(w) == Str(log[i].id);
  }

  /** Every entry link the copier meets in `fs` comes out in `gs`, at the
      same place, pointing at an entry created in `log[from..n]`. */
  ghost predicate LinksCreatedBetween(fs: Fields, gs: Fields, log: seq<Event>, from: nat, n: nat) {
    |gs| == |fs|
    && forall k, j :: 0 <= k < |fs| && 0 <= j < |Checked(fs[k])| && IsLinkOf(Checked(fs[k])[j], "Entry") ==>
         j < |Checked(gs[k])| && CreatedBetween(log, from, n, LinkTarget(Checked(gs[k])[j]))
  }

  lemma FieldsTargetsCreated(src: Space, lineage: seq<Value>, fs: Fields, gs: Fields,
                             st: DestState, hi: nat, log: seq<Event>, n: nat)
    requires FieldsCopied(src, lineage, fs, gs, 0, st, hi, log)
    requires st.issued <= hi && n == |st.log| + (hi - st.issued)
    ensures LinksCreatedBetween(fs, gs, log, |st.log|, n)
  {
    forall k, j | 0 <= k < |fs| && 0 <= j < |Checked(fs[k])| && IsLinkOf(Checked(fs[k])[j], "Entry")
      ensures j < |Checked(gs[k])|
      ensures CreatedBetween(log, |st.log|, n, LinkTarget(Checked(gs[k])[j]))
    {
      assert FieldCopied(src, lineage, fs[k], gs[k], st, hi, log);
      assert LinkCopied(src, lineage, Checked(fs[k])[j], Checked(gs[k])[j], st, hi, log);
      TargetCreated(src, lineage, Checked(fs[k])[j], Checked(gs[k])[j], st, hi, log);
    }
  }

  /** The entry links of a copied entry point at entries of the same run
      that were created before the copy itself. */
  lemma CopiedLinksCreatedFirst(src: Space, id: Value, parents: seq<Value>, st: DestState,
                                newId: string, after: DestState)
    requires EntryCopied(src, id, parents, st, newId, after)
    ensures var n := |after.log| - 1;
            LinksCreatedBetween(src.entries[id.s].fields, after.log[n].fields, after.log, |st.log|, n)
  {
    var n, hi := |after.log| - 1, after.issued - 1;
    FieldsTargetsCreated(src, Lineage(parents, id), src.entries[id.s].fields, after.log[n].fields,
                         st, hi, after.log, n);
  }

  /** After a successful copy of `id`, every entry link the copier met in the
      entry's fields points at an entry that the same run created earlier than
      the entry itself (the copy is created last, with the rewritten fields). */
  lemma LinkedEntriesCreatedFirst(src: Space, rank: map<string, nat>, id: Value,
                                  parents: seq<Value>, st: DestState)
    requires Acyclic(src, rank) && Ranked(src, rank, id)
    ensures var o := CopyEntryF(src, rank, id, parents, st);
            o.result.Success? ==>
              var n := |o.dst.log| - 1;
              LinksCreatedBetween(src.entries[id.s].fields, o.dst.log[n].fields, o.dst.log, |st.log|, n)
  {
    var o := CopyEntryF(src, rank, id, parents, st);
    if o.result.Success? {
      CopiedLinksCreatedFirst(src, id, parents, st, o.result.value, o.dst);
    }
  }

  /** No value the copier checked in a walk that succeeded was an asset link. */
  lemma CheckedNoAsset(src: Space, lineage: seq<Value>, fs: Fields, gs: Fields,
                       st: DestState, hi: nat, log: seq<Event>, k: nat, j: nat)
    requires FieldsCopied(src, lineage, fs, gs, 0, st, hi, log)
    requires k < |fs| && j < |Checked(fs[k])|
    ensures !IsLinkOf(Checked(fs[k])[j], "Asset")
  {
    assert FieldCopied(src, lineage, fs[k], gs[k], st, hi, log);
    assert LinkCopied(src, lineage, Checked(fs[k])[j], Checked(gs[k])[j], st, hi, log);
  }

  /** An asset link anywhere the copier looks in an entry's fields makes the
      copy of that entry fail, and the entry itself is never created: every
      write of the run was made under a strictly longer lineage. */
  lemma AssetLinkBlocksEntry(src: Space, rank: map<string, nat>, id: Value, parents: seq<Value>,
                             st: DestState, k: nat, j: nat)
    requires Acyclic(src, rank) && Ranked(src, rank, id) && id.Str? && id.s in src.entries
    requires k < |src.entries[id.s].fields|
    requires j < |Checked(src.entries[id.s].fields[k])|
    requires IsLinkOf(Checked(src.entries[id.s].fields[k])[j], "Asset")
    ensures var o := CopyEntryF(src, rank, id, parents, st);
            && o.result.Failure?
            && forall i :: |st.log| <= i < |o.dst.log| ==> o.dst.log[i].lineage != Lineage(parents, id)
  {
    var o := CopyEntryF(src, rank, id, parents, st);
    if o.result.Success? {
      CheckedNoAsset(src, Lineage(parents, id), src.entries[id.s].fields, o.dst.log[|o.dst.log| - 1].fields,
                     st, o.dst.issued - 1, o.dst.log, k, j);
      assert false;
    }
    forall i | |st.log| <= i < |o.dst.log|
      ensures o.dst.log[i].lineage != Lineage(parents, id)
    {
      assert Lineage(parents, id) < o.dst.log[i].lineage;
    }
  }

  /** An asset link whose asset exists and has a `file` field: the asset is
      copied and processed, and then the run fails, because `copyAsset`
      resolves to `undefined` and destructuring its result throws. */
  lemma AssetLinkFails(src: Space, v: Value, lineage: seq<Value>, st: DestState)
    requires IsLinkOf(v, "Asset")
    requires LinkTarget(v).Str? && LinkTarget(v).s in src.assets
    requires FindField(src.assets[LinkTarget(v).s].fields, "file").Some?
    ensures var o := AssetLinkF(src, v, lineage, st);
            && o.result == Failure(CannotDestructure)
            && |o.dst.log| == |st.log| + 2
            && o.dst.log[|st.log|].AssetCreated?
            && o.dst.log[|st.log| + 1].AssetProcessed?
  {
    var a := CopyAssetF(src, LinkTarget(v), lineage, st);
    assert a.result == Success(Undefined);
  }
}
