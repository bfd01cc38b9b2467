/** Properties of a copy run, stated over the functions of module CopySpec
    (and so, through the methods' postconditions, over module Copy). */
module CopyProps {
  import opened Json
  import opened Entity
  import opened Failures
  import opened Links
  import opened Destination
  import opened CopySpec

  // ----- how many entries a run creates -----

  /** The number of entry copies a successful copy of `id` makes, counted on
      the source alone: one for the entry itself plus, for every entry link
      met in its fields (one per occurrence, in scalars and array rows alike),
      the copies made for the linked entry. No entry is shared: an entry linked
      k times is counted k times. */
  ghost function Copies(src: Space, rank: map<string, nat>, id: Value): nat
    requires Acyclic(src, rank) && Ranked(src, rank, id)
    decreases RankOf(src, rank, id), 4, 0
  {
    if id.Str? && id.s in src.entries then
      1 + FieldsCopies(src, rank, src.entries[id.s].fields, 0, RankOf(src, rank, id))
    else 0
  }

  ghost function LinkCopies(src: Space, rank: map<string, nat>, v: Value, r: nat): nat
    requires Acyclic(src, rank) && LinkBelow(src, rank, v, r)
    decreases r, 0, 0
  {
    if IsLinkOf(v, "Entry") then Copies(src, rank, LinkTarget(v)) else 0
  }

  ghost function RowsCopies(src: Space, rank: map<string, nat>, rows: seq<Value>, j: nat, r: nat): nat
    requires Acyclic(src, rank) && j <= |rows|
    requires forall k :: j <= k < |rows| ==> LinkBelow(src, rank, rows[k], r)
    decreases r, 1, |rows| - j
  {
    if j == |rows| then 0 else LinkCopies(src, rank, rows[j], r) + RowsCopies(src, rank, rows, j + 1, r)
  }

  ghost function FieldCopies(src: Space, rank: map<string, nat>, f: Field, r: nat): nat
    requires Acyclic(src, rank) && FieldBelow(src, rank, f, r)
    decreases r, 2, 0
  {
    var v := LocaleValue(f);
    if v.Arr? then RowsCopies(src, rank, v.items, 0, r) else LinkCopies(src, rank, v, r)
  }

  ghost function FieldsCopies(src: Space, rank: map<string, nat>, fs: Fields, i: nat, r: nat): nat
    requires Acyclic(src, rank) && i <= |fs| && FieldsBelow(src, rank, fs, i, r)
    decreases r, 3, |fs| - i
  {
    if i == |fs| then 0 else FieldCopies(src, rank, fs[i], r) + FieldsCopies(src, rank, fs, i + 1, r)
  }

  lemma {:induction false} RowsCopiesSuffix(src: Space, rank: map<string, nat>, rows: seq<Value>,
                                            rows': seq<Value>, j: nat, r: nat)
    requires Acyclic(src, rank) && j <= |rows| == |rows'|
    requires forall k :: j <= k < |rows| ==> rows'[k] == rows[k] && LinkBelow(src, rank, rows[k], r)
    ensures RowsCopies(src, rank, rows, j, r) == RowsCopies(src, rank, rows', j, r)
    decreases |rows| - j
  {
    if j < |rows| { RowsCopiesSuffix(src, rank, rows, rows', j + 1, r); }
  }

  lemma {:induction false} FieldsCopiesSuffix(src: Space, rank: map<string, nat>, fs: Fields,
                                              fs': Fields, i: nat, r: nat)
    requires Acyclic(src, rank) && i <= |fs| == |fs'|
    requires forall k :: i <= k < |fs| ==> fs'[k] == fs[k]
    requires FieldsBelow(src, rank, fs, i, r)
    ensures FieldsCopies(src, rank, fs, i, r) == FieldsCopies(src, rank, fs', i, r)
    decreases |fs| - i
  {
    if i < |fs| { FieldsCopiesSuffix(src, rank, fs, fs', i + 1, r); }
  }

  /** A successful copy of `id` creates exactly `Copies(id)` entries (and no
      asset): the destination's counter advances by that much. */
  lemma {:induction false} EntryCount(src: Space, rank: map<string, nat>, id: Value,
                                      parents: seq<Value>, st: DestState)
    requires Acyclic(src, rank) && Ranked(src, rank, id)
    ensures var o := CopyEntryF(src, rank, id, parents, st);
            o.result.Success? ==> o.dst.issued == st.issued + Copies(src, rank, id)
    decreases RankOf(src, rank, id), 4, 0
  {
    if id.Str? && id.s in src.entries {
      var entry := src.entries[id.s];
      FieldsCount(src, rank, entry.fields, 0, Lineage(parents, id), RankOf(src, rank, id), st);
    }
  }

  lemma {:induction false} LinkCount(src: Space, rank: map<string, nat>, v: Value,
                                     lineage: seq<Value>, r: nat, st: DestState)
    requires Acyclic(src, rank) && LinkBelow(src, rank, v, r)
    ensures var o := LinkF(src, rank, v, lineage, r, st);
            o.result.Success? ==> o.dst.issued == st.issued + LinkCopies(src, rank, v, r)
    decreases r, 0, 0
  {
    if IsLinkOf(v, "Entry") {
      EntryCount(src, rank, LinkTarget(v), lineage, st);
    }
  }

  lemma {:induction false} RowsCount(src: Space, rank: map<string, nat>, rows: seq<Value>, j: nat,
                                     lineage: seq<Value>, r: nat, st: DestState)
    requires Acyclic(src, rank) && j <= |rows|
    requires forall k :: j <= k < |rows| ==> LinkBelow(src, rank, rows[k], r)
    ensures var o := RowsF(src, rank, rows, j, lineage, r, st);
            o.result.Success? ==> o.dst.issued == st.issued + RowsCopies(src, rank, rows, j, r)
    decreases r, 1, |rows| - j
  {
    if j < |rows| {
      var w := LinkF(src, rank, rows[j], lineage, r, st);
      LinkCount(src, rank, rows[j], lineage, r, st);
      if w.result.Success? {
        var rows' := rows[j := w.result.value];
        RowsCount(src, rank, rows', j + 1, lineage, r, w.dst);
        RowsCopiesSuffix(src, rank, rows, rows', j + 1, r);
      }
    }
  }

  lemma {:induction false} FieldCount(src: Space, rank: map<string, nat>, f: Field,
                                      lineage: seq<Value>, r: nat, st: DestState)
    requires Acyclic(src, rank) && FieldBelow(src, rank, f, r)
    ensures var o := FieldF(src, rank, f, lineage, r, st);
            o.result.Success? ==> o.dst.issued == st.issued + FieldCopies(src, rank, f, r)
    decreases r, 2, 0
  {
    if Locale in f.locales {
      var v := f.locales[Locale];
      if v.Arr? {
        RowsCount(src, rank, v.items, 0, lineage, r, st);
      } else {
        LinkCount(src, rank, v, lineage, r, st);
      }
    }
  }

  lemma {:induction false} FieldsCount(src: Space, rank: map<string, nat>, fs: Fields, i: nat,
                                       lineage: seq<Value>, r: nat, st: DestState)
    requires Acyclic(src, rank) && i <= |fs| && FieldsBelow(src, rank, fs, i, r)
    ensures var o := FieldsF(src, rank, fs, i, lineage, r, st);
            o.result.Success? ==> o.dst.issued == st.issued + FieldsCopies(src, rank, fs, i, r)
    decreases r, 3, |fs| - i
  {
    if i < |fs| {
      var w := FieldF(src, rank, fs[i], lineage, r, st);
      FieldCount(src, rank, fs[i], lineage, r, st);
      if w.result.Success? {
        var fs' := fs[i := w.result.value];
        FieldsCount(src, rank, fs', i + 1, lineage, r, w.dst);
        FieldsCopiesSuffix(src, rank, fs, fs', i + 1, r);
      }
    }
  }

  // ----- when a copy succeeds -----

  /** A copy of `id` succeeds on this source: the entry exists, no value the
      copier checks in its fields is an asset link, and the target of every
      entry link it checks can be copied in turn. This is decided by the
      source alone, whatever the destination holds. */
  ghost predicate Copyable(src: Space, rank: map<string, nat>, id: Value)
    requires Acyclic(src, rank) && Ranked(src, rank, id)
    decreases RankOf(src, rank, id), 4, 0
  {
    id.Str? && id.s in src.entries
    && FieldsCopyable(src, rank, src.entries[id.s].fields, 0, RankOf(src, rank, id))
  }

  ghost predicate LinkCopyable(src: Space, rank: map<string, nat>, v: Value, r: nat)
    requires Acyclic(src, rank) && LinkBelow(src, rank, v, r)
    decreases r, 0, 0
  {
    !IsLinkOf(v, "Asset") && (IsLinkOf(v, "Entry") ==> Copyable(src, rank, LinkTarget(v)))
  }

  ghost predicate RowsCopyable(src: Space, rank: map<string, nat>, rows: seq<Value>, j: nat, r: nat)
    requires Acyclic(src, rank) && j <= |rows|
    requires forall k :: j <= k < |rows| ==> LinkBelow(src, rank, rows[k], r)
    decreases r, 1, |rows| - j
  {
    j == |rows| || (LinkCopyable(src, rank, rows[j], r) && RowsCopyable(src, rank, rows, j + 1, r))
  }

  ghost predicate FieldCopyable(src: Space, rank: map<string, nat>, f: Field, r: nat)
    requires Acyclic(src, rank) && FieldBelow(src, rank, f, r)
    decreases r, 2, 0
  {
    var v := LocaleValue(f);
    if v.Arr? then RowsCopyable(src, rank, v.items, 0, r) else LinkCopyable(src, rank, v, r)
  }

  ghost predicate FieldsCopyable(src: Space, rank: map<string, nat>, fs: Fields, i: nat, r: nat)
    requires Acyclic(src, rank) && i <= |fs| && FieldsBelow(src, rank, fs, i, r)
    decreases r, 3, |fs| - i
  {
    i == |fs| || (FieldCopyable(src, rank, fs[i], r) && FieldsCopyable(src, rank, fs, i + 1, r))
  }

  lemma {:induction false} RowsCopyableSuffix(src: Space, rank: map<string, nat>, rows: seq<Value>,
                                              rows': seq<Value>, j: nat, r: nat)
    requires Acyclic(src, rank) && j <= |rows| == |rows'|
    requires forall k :: j <= k < |rows| ==> rows'[k] == rows[k] && LinkBelow(src, rank, rows[k], r)
    ensures RowsCopyable(src, rank, rows, j, r) == RowsCopyable(src, rank, rows', j, r)
    decreases |rows| - j
  {
    if j < |rows| { RowsCopyableSuffix(src, rank, rows, rows', j + 1, r); }
  }

  lemma {:induction false} FieldsCopyableSuffix(src: Space, rank: map<string, nat>, fs: Fields,
                                                fs': Fields, i: nat, r: nat)
    requires Acyclic(src, rank) && i <= |fs| == |fs'|
    requires forall k :: i <= k < |fs| ==> fs'[k] == fs[k]
    requires FieldsBelow(src, rank, fs, i, r)
    ensures FieldsCopyable(src, rank, fs, i, r) == FieldsCopyable(src, rank, fs', i, r)
    decreases |fs| - i
  {
    if i < |fs| { FieldsCopyableSuffix(src, rank, fs, fs', i + 1, r); }
  }

  /** A copy succeeds exactly when the entry is `Copyable`: a missing entry
      anywhere along the links, a missing asset, an asset without a `file`
      field or an asset that was copied (whose result cannot be destructured)
      each make it fail, and nothing else does. */
  lemma {:induction false} CopySucceeds(src: Space, rank: map<string, nat>, id: Value,
                                        parents: seq<Value>, st: DestState)
    requires Acyclic(src, rank) && Ranked(src, rank, id)
    ensures CopyEntryF(src, rank, id, parents, st).result.Success? <==> Copyable(src, rank, id)
    decreases RankOf(src, rank, id), 4, 0
  {
    if id.Str? && id.s in src.entries {
      FieldsSucceed(src, rank, src.entries[id.s].fields, 0, Lineage(parents, id), RankOf(src, rank, id), st);
    }
  }

  lemma {:induction false} LinkSucceeds(src: Space, rank: map<string, nat>, v: Value,
                                        lineage: seq<Value>, r: nat, st: DestState)
    requires Acyclic(src, rank) && LinkBelow(src, rank, v, r)
    ensures LinkF(src, rank, v, lineage, r, st).result.Success? <==> LinkCopyable(src, rank, v, r)
    decreases r, 0, 0
  {
    if IsLinkOf(v, "Entry") {
      LinkKindsExclusive(v);
      CopySucceeds(src, rank, LinkTarget(v), lineage, st);
      var c := CopyEntryF(src, rank, LinkTarget(v), lineage, st);
      if c.result.Success? {
        Repointed(v, c.dst.issued - 1);
      }
    }
  }

  lemma {:induction false} RowsSucceed(src: Space, rank: map<string, nat>, rows: seq<Value>, j: nat,
                                       lineage: seq<Value>, r: nat, st: DestState)
    requires Acyclic(src, rank) && j <= |rows|
    requires forall k :: j <= k < |rows| ==> LinkBelow(src, rank, rows[k], r)
    ensures RowsF(src, rank, rows, j, lineage, r, st).result.Success? <==> RowsCopyable(src, rank, rows, j, r)
    decreases r, 1, |rows| - j
  {
    if j < |rows| {
      var w := LinkF(src, rank, rows[j], lineage, r, st);
      LinkSucceeds(src, rank, rows[j], lineage, r, st);
      if w.result.Success? {
        var rows' := rows[j := w.result.value];
        RowsSucceed(src, rank, rows', j + 1, lineage, r, w.dst);
        RowsCopyableSuffix(src, rank, rows, rows', j + 1, r);
      }
    }
  }

  lemma {:induction false} FieldSucceeds(src: Space, rank: map<string, nat>, f: Field,
                                         lineage: seq<Value>, r: nat, st: DestState)
    requires Acyclic(src, rank) && FieldBelow(src, rank, f, r)
    ensures FieldF(src, rank, f, lineage, r, st).result.Success? <==> FieldCopyable(src, rank, f, r)
    decreases r, 2, 0
  {
    if Locale in f.locales {
      var v := f.locales[Locale];
      if v.Arr? {
        RowsSucceed(src, rank, v.items, 0, lineage, r, st);
      } else {
        LinkSucceeds(src, rank, v, lineage, r, st);
      }
    }
  }

  lemma {:induction false} FieldsSucceed(src: Space, rank: map<string, nat>, fs: Fields, i: nat,
                                         lineage: seq<Value>, r: nat, st: DestState)
    requires Acyclic(src, rank) && i <= |fs| && FieldsBelow(src, rank, fs, i, r)
    ensures FieldsF(src, rank, fs, i, lineage, r, st).result.Success? <==> FieldsCopyable(src, rank, fs, i, r)
    decreases r, 3, |fs| - i
  {
    if i < |fs| {
      var w := FieldF(src, rank, fs[i], lineage, r, st);
      FieldSucceeds(src, rank, fs[i], lineage, r, st);
      if w.result.Success? {
        var fs' := fs[i := w.result.value];
        FieldsSucceed(src, rank, fs', i + 1, lineage, r, w.dst);
        FieldsCopyableSuffix(src, rank, fs, fs', i + 1, r);
      }
    }
  }

  // ----- a cycle the copy never reaches -----

  /** A source where entry "x" links to itself while entry "root" links to
      nothing. */
  function LoopSource(): Space {
    Space(
      map[
        "root" := Entry(EntitySys(1, None), "page", []),
        "x" := Entry(EntitySys(1, None), "loop", [Field("self", map[Locale := EntryLink("x")])])],
      map[])
  }

  /** Ranking only "root" is enough to copy it: the cycle through "x" is never
      visited, and the copy creates the root alone. */
  lemma UnreachableCycleIgnored()
    ensures Acyclic(LoopSource(), map["root" := 0]) && Ranked(LoopSource(), map["root" := 0], Str("root"))
    ensures CopyEntryF(LoopSource(), map["root" := 0], Str("root"), [], DestState([], 0))
            == Run(Success(IdOf(0)), DestState([EntryCreated(IdOf(0), "page", [], [Str("root")])], 1))
  {
    var src, rank := LoopSource(), map["root" := 0];
    assert Acyclic(src, rank) by {
      assert FieldsBelow(src, rank, src.entries["root"].fields, 0, 1);
    }
    assert Lineage([], Str("root")) == [Str("root")];
    CopyLeaf(src, rank, Str("root"), [], DestState([], 0));
  }

  /** Copying an entry without fields creates just that entry. */
  lemma CopyLeaf(src: Space, rank: map<string, nat>, id: Value, parents: seq<Value>, st: DestState)
    requires Acyclic(src, rank) && Ranked(src, rank, id)
    requires id.Str? && id.s in src.entries && src.entries[id.s].fields == []
    ensures CopyEntryF(src, rank, id, parents, st)
            == Run(Success(st.NextId()),
                   st.Record(EntryCreated(st.NextId(), src.entries[id.s].contentTypeId, [], Lineage(parents, id))))
  {
    assert FieldsF(src, rank, [], 0, Lineage(parents, id), RankOf(src, rank, id), st) == Run(Success([]), st);
  }

  // ----- an entry linked twice is copied twice -----

  /** A link to entry `id` as the management API writes it. */
  function EntryLink(id: string): Value {
    Obj(map["sys" := Obj(map["type" := Str("Link"), "linkType" := Str("Entry"), "id" := Str(id)])])
  }

  /** A source with a "diamond": entry "root" has two fields that both link to
      entry "t", which links to nothing. */
  function DiamondSource(): Space {
    Space(
      map[
        "root" := Entry(EntitySys(1, None), "page",
                        [Field("a", map[Locale := EntryLink("t")]), Field("b", map[Locale := EntryLink("t")])]),
        "t" := Entry(EntitySys(1, None), "tag", [])],
      map[])
  }

  function DiamondRank(): map<string, nat> {
    map["root" := 1, "t" := 0]
  }

  lemma DiamondAcyclic()
    ensures Acyclic(DiamondSource(), DiamondRank())
  {
    var src, rank := DiamondSource(), DiamondRank();
    assert LinkTarget(EntryLink("t")) == Str("t");
    assert FieldsBelow(src, rank, src.entries["root"].fields, 0, 2);
  }

  /** The state after creating one copy of "t" under the root's lineage. */
  function AfterCopyOfT(st: DestState): DestState {
    st.Record(EntryCreated(st.NextId(), "tag", [], [Str("root"), Str("t")]))
  }

  lemma DiamondCopyT(st: DestState)
    requires Acyclic(DiamondSource(), DiamondRank())
    ensures CopyEntryF(DiamondSource(), DiamondRank(), Str("t"), [Str("root")], st)
            == Run(Success(st.NextId()), AfterCopyOfT(st))
  {
    var src, rank := DiamondSource(), DiamondRank();
    var lineage := Lineage([Str("root")], Str("t"));
    assert lineage == [Str("root"), Str("t")];
    assert GetEntry(src, Str("t")) == Success(Entry(EntitySys(1, None), "tag", []));
    assert FieldsF(src, rank, [], 0, lineage, 1, st) == Run(Success([]), st);
  }

  lemma DiamondLink(st: DestState)
    requires Acyclic(DiamondSource(), DiamondRank())
    ensures LinkBelow(DiamondSource(), DiamondRank(), EntryLink("t"), 2)
    ensures LinkF(DiamondSource(), DiamondRank(), EntryLink("t"), [Str("root")], 2, st)
            == Run(Success(SetLinkId(EntryLink("t"), Str(st.NextId()))), AfterCopyOfT(st))
  {
    var src, rank, link := DiamondSource(), DiamondRank(), EntryLink("t");
    assert IsLinkOf(link, "Entry") && LinkTarget(link) == Str("t");
    DiamondCopyT(st);
    var moved := SetLinkId(link, Str(st.NextId()));
    SetLinkIdKeepsKind(link, Str(st.NextId()), "Asset");
    assert !IsLinkOf(moved, "Asset");
    assert AssetLinkF(src, moved, [Str("root")], AfterCopyOfT(st)) == Run(Success(moved), AfterCopyOfT(st));
  }

  lemma DiamondField(name: string, st: DestState)
    requires Acyclic(DiamondSource(), DiamondRank())
    ensures FieldBelow(DiamondSource(), DiamondRank(), Field(name, map[Locale := EntryLink("t")]), 2)
    ensures FieldF(DiamondSource(), DiamondRank(), Field(name, map[Locale := EntryLink("t")]), [Str("root")], 2, st)
            == Run(Success(Field(name, map[Locale := SetLinkId(EntryLink("t"), Str(st.NextId()))])), AfterCopyOfT(st))
  {
    var src, rank, link := DiamondSource(), DiamondRank(), EntryLink("t");
    var f := Field(name, map[Locale := link]);
    var moved := SetLinkId(link, Str(st.NextId()));
    assert LocaleValue(f) == link && !link.Arr?;
    assert LinkF(src, rank, link, [Str("root")], 2, st) == Run(Success(moved), AfterCopyOfT(st)) by {
      DiamondLink(st);
    }
    SingletonOverwrite(Locale, link, moved);
  }

  lemma SingletonOverwrite(k: string, a: Value, b: Value)
    ensures map[k := a][k := b] == map[k := b]
  {
  }

  /** One step of the walk over the fields, once the field's own walk is known. */
  lemma FieldsUnfold(src: Space, rank: map<string, nat>, fs: Fields, i: nat, lineage: seq<Value>,
                     r: nat, st: DestState, g: Field, mid: DestState)
    requires Acyclic(src, rank) && i < |fs| && FieldsBelow(src, rank, fs, i, r)
    requires FieldF(src, rank, fs[i], lineage, r, st) == Run(Success(g), mid)
    ensures FieldsBelow(src, rank, fs[i := g], i + 1, r)
    ensures FieldsF(src, rank, fs, i, lineage, r, st) == FieldsF(src, rank, fs[i := g], i + 1, lineage, r, mid)
  {
  }

  /** The walk over two fields is the walk over the first, then the second. */
  lemma FieldsTwo(src: Space, rank: map<string, nat>, f0: Field, f1: Field, lineage: seq<Value>, r: nat,
                  st: DestState, g0: Field, s1: DestState, g1: Field, s2: DestState)
    requires Acyclic(src, rank) && FieldBelow(src, rank, f0, r) && FieldBelow(src, rank, f1, r)
    requires FieldF(src, rank, f0, lineage, r, st) == Run(Success(g0), s1)
    requires FieldF(src, rank, f1, lineage, r, s1) == Run(Success(g1), s2)
    ensures FieldsBelow(src, rank, [f0, f1], 0, r)
    ensures FieldsF(src, rank, [f0, f1], 0, lineage, r, st) == Run(Success([g0, g1]), s2)
  {
    var before, between, after := [f0, f1], [g0, f1], [g0, g1];
    assert FieldsBelow(src, rank, before, 0, r);
    assert FieldsBelow(src, rank, between, 1, r)
      && FieldsF(src, rank, before, 0, lineage, r, st) == FieldsF(src, rank, between, 1, lineage, r, s1) by {
      assert before[0 := g0] == between;
      FieldsUnfold(src, rank, before, 0, lineage, r, st, g0, s1);
    }
    assert FieldsF(src, rank, between, 1, lineage, r, s1) == FieldsF(src, rank, after, 2, lineage, r, s2) by {
      assert between[1 := g1] == after;
      FieldsUnfold(src, rank, between, 1, lineage, r, s1, g1, s2);
    }
  }

  /** The walk over the root's two fields, from an empty destination. */
  lemma DiamondFields()
    requires Acyclic(DiamondSource(), DiamondRank())
    ensures FieldsBelow(DiamondSource(), DiamondRank(), DiamondSource().entries["root"].fields, 0, 2)
    ensures FieldsF(DiamondSource(), DiamondRank(), DiamondSource().entries["root"].fields, 0, [Str("root")], 2,
                    DestState([], 0))
            == Run(Success(DiamondRootFields()), AfterCopyOfT(AfterCopyOfT(DestState([], 0))))
  {
    var st0 := DestState([], 0);
    var st1 := AfterCopyOfT(st0);
    var fa, fb := Field("a", map[Locale := EntryLink("t")]), Field("b", map[Locale := EntryLink("t")]);
    assert DiamondSource().entries["root"].fields == [fa, fb];
    assert st0.NextId() == IdOf(0) && st1.NextId() == IdOf(1);
    DiamondField("a", st0);
    DiamondField("b", st1);
    FieldsTwo(DiamondSource(), DiamondRank(), fa, fb, [Str("root")], 2, st0,
              DiamondRootFields()[0], st1, DiamondRootFields()[1], AfterCopyOfT(st1));
    assert [DiamondRootFields()[0], DiamondRootFields()[1]] == DiamondRootFields();
  }

  /** The root's fields as the copy is created with them: each link now
      points at its own copy of "t". */
  function DiamondRootFields(): Fields {
    [Field("a", map[Locale := SetLinkId(EntryLink("t"), Str(IdOf(0)))]),
     Field("b", map[Locale := SetLinkId(EntryLink("t"), Str(IdOf(1)))])]
  }

  /** The log a copy of the diamond's root leaves: "t" twice, then the root. */
  function DiamondLog(): seq<Event> {
    [EntryCreated(IdOf(0), "tag", [], [Str("root"), Str("t")]),
     EntryCreated(IdOf(1), "tag", [], [Str("root"), Str("t")]),
     EntryCreated(IdOf(2), "page", DiamondRootFields(), [Str("root")])]
  }

  lemma DiamondLogSteps()
    ensures AfterCopyOfT(AfterCopyOfT(DestState([], 0))).Record(EntryCreated(IdOf(2), "page", DiamondRootFields(), [Str("root")]))
            == DestState(DiamondLog(), 3)
  {
    var e0 := EntryCreated(IdOf(0), "tag", [], [Str("root"), Str("t")]);
    var e1 := EntryCreated(IdOf(1), "tag", [], [Str("root"), Str("t")]);
    assert AfterCopyOfT(DestState([], 0)) == DestState([e0], 1);
    assert AfterCopyOfT(DestState([e0], 1)) == DestState([e0, e1], 2);
  }

  /** The copy of the root, as one step: both copies of "t" and then the root. */
  lemma DiamondRootCopy()
    requires Acyclic(DiamondSource(), DiamondRank())
    ensures CopyEntryF(DiamondSource(), DiamondRank(), Str("root"), [], DestState([], 0))
            == Run(Success(IdOf(2)), DestState(DiamondLog(), 3))
  {
    var src, rank := DiamondSource(), DiamondRank();
    var root := src.entries["root"];
    var st2 := AfterCopyOfT(AfterCopyOfT(DestState([], 0)));
    assert GetEntry(src, Str("root")) == Success(root);
    assert Lineage([], Str("root")) == [Str("root")];
    assert RankOf(src, rank, Str("root")) == 2;
    var w := FieldsF(src, rank, root.fields, 0, [Str("root")], 2, DestState([], 0));
    assert w.result == Success(DiamondRootFields()) && w.dst == st2 by {
      DiamondFields();
    }
    DiamondLogSteps();
  }

  /** Copying the diamond's root copies "t" twice, once per link, under two
      different ids, and creates the root last with each field pointing at its
      own copy of "t". */
  lemma DiamondCopiesTwice()
    ensures Acyclic(DiamondSource(), DiamondRank())
    ensures CopyEntryF(DiamondSource(), DiamondRank(), Str("root"), [], DestState([], 0))
            == Run(Success(IdOf(2)), DestState(DiamondLog(), 3))
    ensures DiamondLog()[0].id != DiamondLog()[1].id
  {
    DiamondAcyclic();
    DiamondRootCopy();
    IdOfInjective(0, 1);
  }
}
