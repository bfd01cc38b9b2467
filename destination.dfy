/** The destination environment as the copier sees it: something that creates
    entries and assets, hands each a new id, and processes uploaded files. Its
    state is the ordered log of those writes; ids come from a counter, so the
    k-th entity created gets id `IdOf(k)`. Each write carries the lineage
    (breadcrumb) shown with it. */
module Destination {
  import opened Json
  import opened Entity

  datatype Event =
    | EntryCreated(id: string, contentTypeId: string, fields: Fields, lineage: seq<Value>)
    | AssetCreated(id: string, fields: Fields, lineage: seq<Value>)
    | AssetProcessed(id: string, lineage: seq<Value>)

  /** The id the destination gives the k-th entity it creates. */
  function IdOf(k: nat): string {
    Decimal(k)
  }

  /** The ids handed out while the counter went from `lo` to `hi`. */
  ghost function IssuedIds(lo: nat, hi: nat): set<string> {
    set k | lo <= k < hi :: IdOf(k)
  }

  /** Different counter values give different ids. */
  lemma IdOfInjective(j: nat, k: nat)
    ensures IdOf(j) == IdOf(k) <==> j == k
  {
    if IdOf(j) == IdOf(k) { DecimalInjective(j, k); }
  }

  /** The counter value an id was handed out at: the inverse of `IdOf`. */
  function CounterOf(id: string): nat {
    DecimalValue(id)
  }

  lemma CounterOfIdOf(k: nat)
    ensures CounterOf(IdOf(k)) == k
  {
    DecimalValueOfDecimal(k);
  }

  /** A snapshot of the destination: its write log and its id counter. */
  datatype DestState = DestState(log: seq<Event>, issued: nat) {

    /** Every id in the log was handed out by the counter. */
    ghost predicate Valid() {
      forall i :: 0 <= i < |log| ==> log[i].id in IssuedIds(0, issued)
    }

    function NextId(): string {
      IdOf(issued)
    }

    /** The state after one more write; creations advance the counter. */
    function Record(e: Event): DestState {
      DestState(log + [e], if e.AssetProcessed? then issued else issued + 1)
    }
  }

  /** The id the destination hands out next appears nowhere in its log. */
  lemma NextIdIsFresh(st: DestState)
    requires st.Valid()
    ensures forall i :: 0 <= i < |st.log| ==> st.log[i].id != st.NextId()
  {
    forall i | 0 <= i < |st.log| ensures st.log[i].id != st.NextId() {
      var k :| 0 <= k < st.issued && st.log[i].id == IdOf(k);
      IdOfInjective(k, st.issued);
    }
  }

  /** The destination environment (`toEnvironment`). */
  class Environment {
    var log: seq<Event>
    var issued: nat

    function Snapshot(): DestState
      reads this
    {
      DestState(log, issued)
    }

    ghost predicate Valid()
      reads this
    {
      Snapshot().Valid()
    }

    constructor ()
      ensures Valid() && Snapshot() == DestState([], 0)
    {
      log := [];
      issued := 0;
    }

    /** `toEnvironment.createEntry(contentTypeId, { fields })`. */
    method CreateEntry(contentTypeId: string, fields: Fields, lineage: seq<Value>) returns (id: string)
      requires Valid()
      modifies this
      ensures Valid()
      ensures id == old(Snapshot()).NextId()
      ensures forall i :: 0 <= i < |old(log)| ==> old(log)[i].id != id
      ensures Snapshot() == old(Snapshot()).Record(EntryCreated(id, contentTypeId, fields, lineage))
    {
      NextIdIsFresh(Snapshot());
      id := IdOf(issued);
      log := log + [EntryCreated(id, contentTypeId, fields, lineage)];
      issued := issued + 1;
    }

    /** `toEnvironment.createAsset({ fields })`. */
    method CreateAsset(fields: Fields, lineage: seq<Value>) returns (id: string)
      requires Valid()
      modifies this
      ensures Valid()
      ensures id == old(Snapshot()).NextId()
      ensures forall i :: 0 <= i < |old(log)| ==> old(log)[i].id != id
      ensures Snapshot() == old(Snapshot()).Record(AssetCreated(id, fields, lineage))
    {
      NextIdIsFresh(Snapshot());
      id := IdOf(issued);
      log := log + [AssetCreated(id, fields, lineage)];
      issued := issued + 1;
    }

    /** `asset.processForAllLocales()` on an asset this environment created. */
    method ProcessForAllLocales(id: string, lineage: seq<Value>)
      requires Valid() && id in IssuedIds(0, issued)
      modifies this
      ensures Valid()
      ensures Snapshot() == old(Snapshot()).Record(AssetProcessed(id, lineage))
    {
      log := log + [AssetProcessed(id, lineage)];
    }
  }
}
