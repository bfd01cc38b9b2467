/** What one copy run does, as functions of the source environment and the
    destination's state: `copyEntry` (index.js:43-119) and `copyAsset`
    (index.js:125-171). Each function returns the result of its step and the
    destination state after it; a failure stops the run where it happened, and
    whatever was created before stays. The methods in module Copy are proved to
    compute exactly these.

    The code keeps no record of what it already copied, so a link cycle that
    the walk reaches before any failure recurses forever. These functions are
    therefore defined only for a copy that starts at a ranked entry of a source
    whose ranked entries link only to ranked entries: `rank` gives each ranked
    entry a number larger than that of every entry it links to in the copier's
    locale. Entries outside the ranking are never visited. */
module CopySpec {
  import opened Json
  import opened Entity
  import opened Failures
  import opened Links
  import opened Destination

  /** The result of a step and the destination state after it. */
  datatype Run<T> = Run(result: Result<T>, dst: DestState)

  /** `[...parents, id]`: the lineage of the entity being processed. */
  function Lineage(parents: seq<Value>, id: Value): (l: seq<Value>)
    ensures |l| == |parents| + 1 && l[|parents|] == id
    ensures parents <= l
  {
    parents + [id]
  }

  // ----- acyclic link graph -----

  /** The rank of the entry a link points at, counting from 1; 0 when the
      target is not a ranked entry of the source. */
  ghost function RankOf(src: Space, rank: map<string, nat>, id: Value): nat {
    if id.Str? && id.s in src.entries && id.s in rank then rank[id.s] + 1 else 0
  }

  /** If `id` names an entry of the source, that entry has a rank. */
  ghost predicate Ranked(src: Space, rank: map<string, nat>, id: Value) {
    id.Str? && id.s in src.entries ==> id.s in rank
  }

  /** An entry link in `v` points at a ranked entry below rank `r`, or at no
      entry of the source at all. */
  ghost predicate LinkBelow(src: Space, rank: map<string, nat>, v: Value, r: nat) {
    IsLinkOf(v, "Entry") ==> Ranked(src, rank, LinkTarget(v)) && RankOf(src, rank, LinkTarget(v)) < r
  }

  /** Every entry link the copier finds in field `f` (the locale value itself,
      or an element of it when it is an array) points below rank `r`. */
  ghost predicate FieldBelow(src: Space, rank: map<string, nat>, f: Field, r: nat) {
    var v := LocaleValue(f);
    LinkBelow(src, rank, v, r)
    && (v.Arr? ==> forall j :: 0 <= j < |v.items| ==> LinkBelow(src, rank, v.items[j], r))
  }

  ghost predicate FieldsBelow(src: Space, rank: map<string, nat>, fs: Fields, from: nat, r: nat) {
    forall k :: from <= k < |fs| ==> FieldBelow(src, rank, fs[k], r)
  }

  /** Every ranked entry links only to ranked entries of strictly lower rank.
      So every entry reachable from a ranked entry is ranked and no link cycle
      is reachable from one; entries outside the ranking, cycles among them
      included, are never visited by a copy that starts at a ranked entry. */
  ghost predicate Acyclic(src: Space, rank: map<string, nat>) {
    forall e :: e in rank && e in src.entries ==>
      FieldsBelow(src, rank, src.entries[e].fields, 0, rank[e] + 1)
  }

  // ----- what a step leaves behind -----

  /** The destination only grew: the old log is a prefix, the counter went up. */
  ghost predicate Extends(st: DestState, after: DestState) {
    st.log <= after.log && st.issued <= after.issued
  }

  /** Every write in `now` past the length of `before` was made under a lineage
      strictly extending `lineage`, that is, while copying something reached
      from the entity whose lineage that is. */
  ghost predicate Deeper(before: seq<Event>, now: seq<Event>, lineage: seq<Value>) {
    forall i :: |before| <= i < |now| ==> lineage < now[i].lineage
  }

  /** Every write from `st` to `after` created an entry (no asset was created
      or processed), and the counter advanced once per write, so the n-th of
      these writes created the entry with the n-th id handed out. */
  ghost predicate EntriesOnly(st: DestState, after: DestState) {
    && after.issued - st.issued == |after.log| - |st.log|
    && forall i :: |st.log| <= i < |after.log| ==>
         after.log[i].EntryCreated? && after.log[i].id == IdOf(st.issued + (i - |st.log|))
  }

  /** The counter value the entry that link `w` points at was created with. */
  function CopyNo(w: Value): nat {
    if LinkTarget(w).Str? then CounterOf(LinkTarget(w).s) else 0
  }

  /** How a value the copier looked at comes out of a successful stretch of
      entry-only writes that started at `st`, whose n-th write sits at index
      `|st.log| + n` of `log` and used counter value `st.issued + n`. An entry
      link now points at the copy of its own target, made in that stretch
      before the counter reached `hi`, with the target's content type and
      under the lineage `[...lineage, target]`; nothing else about the link
      changed. There was no asset link. Anything else is unchanged. */
  ghost predicate LinkCopied(src: Space, lineage: seq<Value>, v: Value, w: Value,
                             st: DestState, hi: nat, log: seq<Event>) {
    && !IsLinkOf(v, "Asset")
    && if IsLinkOf(v, "Entry") then
         var t, c := LinkTarget(v), CopyNo(w);
         var i := |st.log| + (c - st.issued);
         && t.Str? && t.s in src.entries
         && w == SetLinkId(v, Str(IdOf(c)))
         && st.issued <= c < hi && i < |log|
         && log[i].EntryCreated? && log[i].id == IdOf(c)
         && log[i].contentTypeId == src.entries[t.s].contentTypeId
         && log[i].lineage == Lineage(lineage, t)
       else w == v
  }

  /** Entry links met earlier (from index `from` on) point at copies made
      earlier: the copies are made in the order the copier meets the links. */
  ghost predicate InOrder(vs: seq<Value>, ws: seq<Value>, from: nat) {
    forall k1, k2 {:trigger CopyNo(ws[k1]), CopyNo(ws[k2])} ::
      from <= k1 < k2 < |vs| && k2 < |ws| && IsLinkOf(vs[k1], "Entry") && IsLinkOf(vs[k2], "Entry") ==>
        CopyNo(ws[k1]) < CopyNo(ws[k2])
  }

  /** A sequence of values after a walk from index `from` on: same length,
      the values before `from` untouched, every value from `from` on as
      `LinkCopied` states, the copies made in the order of the values. */
  ghost predicate RowsCopied(src: Space, lineage: seq<Value>, rows: seq<Value>, out: seq<Value>, from: nat,
                             st: DestState, hi: nat, log: seq<Event>) {
    && |out| == |rows|
    && (forall k :: 0 <= k < from && k < |rows| ==> out[k] == rows[k])
    && (forall k {:trigger LinkCopied(src, lineage, rows[k], out[k], st, hi, log)} ::
          from <= k < |rows| ==> LinkCopied(src, lineage, rows[k], out[k], st, hi, log))
    && InOrder(rows, out, from)
  }

  /** The values the copier checks for links in field `f`: the rows of its
      value for the copier's locale when that is an array, else that value. */
  function Checked(f: Field): (vs: seq<Value>)
    ensures |vs| >= 1 || LocaleValue(f).Arr?
  {
    var v := LocaleValue(f);
    if v.Arr? then v.items else [v]
  }

  /** A field after a successful walk: same name and locales; values of other
      locales untouched; the copier's locale value is an array exactly when it
      was, and the values the copier checked come out as `RowsCopied` states. */
  ghost predicate FieldCopied(src: Space, lineage: seq<Value>, f: Field, g: Field,
                              st: DestState, hi: nat, log: seq<Event>) {
    && g.name == f.name
    && g.locales.Keys == f.locales.Keys
    && (forall l :: l in f.locales && l != Locale ==> g.locales[l] == f.locales[l])
    && LocaleValue(g).Arr? == LocaleValue(f).Arr?
    && RowsCopied(src, lineage, Checked(f), Checked(g), 0, st, hi, log)
  }

  /** Every copy made for the checked values of field `f` (now `g`) precedes
      every copy made for those of field `f'` (now `g'`). */
  ghost predicate CopiedBefore(f: Field, g: Field, f': Field, g': Field) {
    forall j1, j2 {:trigger CopyNo(Checked(g)[j1]), CopyNo(Checked(g')[j2])} ::
      0 <= j1 < |Checked(f)| && j1 < |Checked(g)| && 0 <= j2 < |Checked(f')| && j2 < |Checked(g')|
      && IsLinkOf(Checked(f)[j1], "Entry") && IsLinkOf(Checked(f')[j2], "Entry") ==>
        CopyNo(Checked(g)[j1]) < CopyNo(Checked(g')[j2])
  }

  /** The copies made for the fields from index `from` on are made field by
      field: every copy for an earlier field precedes every copy for a later one. */
  ghost predicate FieldsInOrder(fs: Fields, gs: Fields, from: nat) {
    forall k1, k2 {:trigger CopiedBefore(fs[k1], gs[k1], fs[k2], gs[k2])} ::
      from <= k1 < k2 < |fs| && k2 < |gs| ==> CopiedBefore(fs[k1], gs[k1], fs[k2], gs[k2])
  }

  /** The fields after a walk from index `from` on: same number and order, the
      fields before `from` untouched, every field from `from` on as
      `FieldCopied` states, the copies made field by field. */
  ghost predicate FieldsCopied(src: Space, lineage: seq<Value>, fs: Fields, gs: Fields, from: nat,
                               st: DestState, hi: nat, log: seq<Event>) {
    && |gs| == |fs|
    && (forall k :: 0 <= k < from && k < |fs| ==> gs[k] == fs[k])
    && (forall k {:trigger FieldCopied(src, lineage, fs[k], gs[k], st, hi, log)} ::
          from <= k < |fs| ==> FieldCopied(src, lineage, fs[k], gs[k], st, hi, log))
    && FieldsInOrder(fs, gs, from)
  }

  /** Two steps in a row make one: the destination only grew, the writes of
      both were deeper than `lineage`, and two stretches of entry-only writes
      make one. */
  lemma StepsCompose(a: DestState, b: DestState, c: DestState, lineage: seq<Value>)
    requires Extends(a, b) && Deeper(a.log, b.log, lineage)
    requires Extends(b, c) && Deeper(b.log, c.log, lineage)
    ensures Extends(a, c) && Deeper(a.log, c.log, lineage)
    ensures EntriesOnly(a, b) && EntriesOnly(b, c) ==> EntriesOnly(a, c)
  {
    forall i | |a.log| <= i < |c.log| ensures lineage < c.log[i].lineage {
      if i < |b.log| {
        assert c.log[i] == b.log[i];
      }
    }
    if EntriesOnly(a, b) && EntriesOnly(b, c) {
      forall i | |a.log| <= i < |c.log|
        ensures c.log[i].EntryCreated? && c.log[i].id == IdOf(a.issued + (i - |a.log|))
      {
        if i < |b.log| {
          assert c.log[i] == b.log[i];
        }
      }
    }
  }

  /** Creating one more entry extends a stretch of entry-only writes. */
  lemma EntriesOnlyRecord(a: DestState, b: DestState, ct: string, fs: Fields, lineage: seq<Value>)
    ensures EntriesOnly(a, b) ==> EntriesOnly(a, b.Record(EntryCreated(b.NextId(), ct, fs, lineage)))
  {
  }

  /** A copy found in a stretch is still found in a stretch that starts
      earlier (with the same correspondence of log indices and counter
      values), ends later, or whose log has grown since. */
  lemma LinkCopiedWiden(src: Space, lineage: seq<Value>, v: Value, w: Value,
                        st: DestState, hi: nat, log: seq<Event>,
                        st': DestState, hi': nat, log': seq<Event>)
    requires LinkCopied(src, lineage, v, w, st, hi, log)
    requires st'.issued <= st.issued && |st.log| - |st'.log| == st.issued - st'.issued
    requires hi <= hi' && log <= log'
    ensures LinkCopied(src, lineage, v, w, st', hi', log')
  {
    if IsLinkOf(v, "Entry") {
      var i := |st.log| + (CopyNo(w) - st.issued);
      assert log'[i] == log[i];
    }
  }

  lemma FieldCopiedWiden(src: Space, lineage: seq<Value>, f: Field, g: Field,
                         st: DestState, hi: nat, log: seq<Event>,
                         st': DestState, hi': nat, log': seq<Event>)
    requires FieldCopied(src, lineage, f, g, st, hi, log)
    requires st'.issued <= st.issued && |st.log| - |st'.log| == st.issued - st'.issued
    requires hi <= hi' && log <= log'
    ensures FieldCopied(src, lineage, f, g, st', hi', log')
  {
    forall j | 0 <= j < |Checked(f)|
      ensures LinkCopied(src, lineage, Checked(f)[j], Checked(g)[j], st', hi', log')
    {
      LinkCopiedWiden(src, lineage, Checked(f)[j], Checked(g)[j], st, hi, log, st', hi', log');
    }
  }

  /** Re-pointing an entry link at the id made with counter value `c`: it
      stays an entry link, so it is not then taken for an asset link, and it
      now names counter value `c`. */
  lemma Repointed(v: Value, c: nat)
    requires IsLinkOf(v, "Entry")
    ensures !IsLinkOf(SetLinkId(v, Str(IdOf(c))), "Asset")
    ensures CopyNo(SetLinkId(v, Str(IdOf(c)))) == c
  {
    LinkKindsExclusive(v);
    SetLinkIdKeepsKind(v, Str(IdOf(c)), "Asset");
    LinkHasSys(v, "Entry");
    CounterOfIdOf(c);
  }

  /** An entry link re-pointed at the copy of its target that a stretch of
      entry-only writes ended with. */
  lemma EntryLinkCopied(src: Space, lineage: seq<Value>, v: Value, st: DestState, after: DestState)
    requires IsLinkOf(v, "Entry") && LinkTarget(v).Str? && LinkTarget(v).s in src.entries
    requires st.issued < after.issued && |after.log| - |st.log| == after.issued - st.issued
    requires var e := after.log[|after.log| - 1];
             && e.EntryCreated? && e.id == IdOf(after.issued - 1)
             && e.contentTypeId == src.entries[LinkTarget(v).s].contentTypeId
             && e.lineage == Lineage(lineage, LinkTarget(v))
    ensures var w := SetLinkId(v, Str(IdOf(after.issued - 1)));
            && LinkCopied(src, lineage, v, w, st, after.issued, after.log)
            && CopyNo(w) == after.issued - 1
            && !IsLinkOf(w, "Asset")
  {
    var c, t := after.issued - 1, LinkTarget(v);
    var w := SetLinkId(v, Str(IdOf(c)));
    Repointed(v, c);
    var i := |st.log| + (c - st.issued);
    assert i == |after.log| - 1;
    var e := after.log[i];
    assert e.EntryCreated? && e.id == IdOf(c);
    assert e.contentTypeId == src.entries[t.s].contentTypeId;
    assert e.lineage == Lineage(lineage, t);
  }

  /** Writes made under a lineage extending `lineage` are deeper than it. */
  lemma DeeperPrefix(before: seq<Event>, now: seq<Event>, lineage: seq<Value>, longer: seq<Value>)
    requires Deeper(before, now, longer) && lineage < longer
    ensures Deeper(before, now, lineage)
  {
  }

  /** The same, when the last write is made under `longer` itself. */
  lemma DeeperLast(before: seq<Event>, now: seq<Event>, lineage: seq<Value>, longer: seq<Value>)
    requires |before| < |now| && Deeper(before, now[..|now| - 1], longer) && lineage < longer
    requires now[|now| - 1].lineage == longer
    ensures Deeper(before, now, lineage)
  {
    forall i | |before| <= i < |now| ensures lineage < now[i].lineage {
      if i < |now| - 1 {
        assert now[..|now| - 1][i] == now[i];
      }
    }
  }

  /** One row rewritten during `st`..`mid`, then the rest during `mid`..`fin`:
      the row-wise facts of both steps combine into those of the whole, and
      the copies for the first row precede those for the rest. */
  lemma RowsCopiedStep(src: Space, lineage: seq<Value>, rows: seq<Value>, out: seq<Value>, j: nat,
                       row: Value, st: DestState, mid: DestState, fin: DestState)
    requires j < |rows|
    requires Extends(st, mid) && |mid.log| - |st.log| == mid.issued - st.issued && Extends(mid, fin)
    requires LinkCopied(src, lineage, rows[j], row, st, mid.issued, mid.log)
    requires RowsCopied(src, lineage, rows[j := row], out, j + 1, mid, fin.issued, fin.log)
    ensures RowsCopied(src, lineage, rows, out, j, st, fin.issued, fin.log)
  {
    var rows' := rows[j := row];
    forall k | j <= k < |rows| ensures LinkCopied(src, lineage, rows[k], out[k], st, fin.issued, fin.log) {
      if k == j {
        LinkCopiedWiden(src, lineage, rows[k], out[k], st, mid.issued, mid.log, st, fin.issued, fin.log);
      } else {
        assert rows'[k] == rows[k];
        LinkCopiedWiden(src, lineage, rows[k], out[k], mid, fin.issued, fin.log, st, fin.issued, fin.log);
      }
    }
    forall k1, k2 | j <= k1 < k2 < |rows| && IsLinkOf(rows[k1], "Entry") && IsLinkOf(rows[k2], "Entry")
      ensures CopyNo(out[k1]) < CopyNo(out[k2])
    {
      assert rows'[k2] == rows[k2];
      if k1 == j {
        assert CopyNo(out[k1]) < mid.issued;
        assert LinkCopied(src, lineage, rows'[k2], out[k2], mid, fin.issued, fin.log);
      } else {
        assert rows'[k1] == rows[k1];
      }
    }
  }

  /** The same for fields. */
  lemma FieldsCopiedStep(src: Space, lineage: seq<Value>, fs: Fields, out: Fields, i: nat,
                         g: Field, st: DestState, mid: DestState, fin: DestState)
    requires i < |fs|
    requires Extends(st, mid) && |mid.log| - |st.log| == mid.issued - st.issued && Extends(mid, fin)
    requires FieldCopied(src, lineage, fs[i], g, st, mid.issued, mid.log)
    requires FieldsCopied(src, lineage, fs[i := g], out, i + 1, mid, fin.issued, fin.log)
    ensures FieldsCopied(src, lineage, fs, out, i, st, fin.issued, fin.log)
  {
    var fs' := fs[i := g];
    forall k | i <= k < |fs| ensures FieldCopied(src, lineage, fs[k], out[k], st, fin.issued, fin.log) {
      if k == i {
        FieldCopiedWiden(src, lineage, fs[k], out[k], st, mid.issued, mid.log, st, fin.issued, fin.log);
      } else {
        assert fs'[k] == fs[k];
        FieldCopiedWiden(src, lineage, fs[k], out[k], mid, fin.issued, fin.log, st, fin.issued, fin.log);
      }
    }
    forall k1, k2 | i <= k1 < k2 < |fs| ensures CopiedBefore(fs[k1], out[k1], fs[k2], out[k2]) {
      assert fs'[k2] == fs[k2];
      if k1 == i {
        FieldBeforeLater(src, lineage, fs[k1], out[k1], fs[k2], out[k2], st, mid, fin);
      } else {
        assert fs'[k1] == fs[k1];
      }
    }
  }

  /** The copies for a field walked during `st`..`mid` precede those for a
      field walked during `mid`..`fin`. */
  lemma FieldBeforeLater(src: Space, lineage: seq<Value>, f: Field, g: Field, f': Field, g': Field,
                         st: DestState, mid: DestState, fin: DestState)
    requires FieldCopied(src, lineage, f, g, st, mid.issued, mid.log)
    requires FieldCopied(src, lineage, f', g', mid, fin.issued, fin.log)
    ensures CopiedBefore(f, g, f', g')
  {
    forall j1, j2 |
      0 <= j1 < |Checked(f)| && j1 < |Checked(g)| && 0 <= j2 < |Checked(f')| && j2 < |Checked(g')|
      && IsLinkOf(Checked(f)[j1], "Entry") && IsLinkOf(Checked(f')[j2], "Entry")
      ensures CopyNo(Checked(g)[j1]) < CopyNo(Checked(g')[j2])
    {
      assert LinkCopied(src, lineage, Checked(f)[j1], Checked(g)[j1], st, mid.issued, mid.log);
      assert LinkCopied(src, lineage, Checked(f')[j2], Checked(g')[j2], mid, fin.issued, fin.log);
    }
  }

  /** The facts about a walk's fields survive later writes. */
  lemma FieldsCopiedGrow(src: Space, lineage: seq<Value>, fs: Fields, gs: Fields,
                         st: DestState, hi: nat, log: seq<Event>, log': seq<Event>)
    requires FieldsCopied(src, lineage, fs, gs, 0, st, hi, log) && log <= log'
    ensures FieldsCopied(src, lineage, fs, gs, 0, st, hi, log')
  {
    forall k | 0 <= k < |fs| ensures FieldCopied(src, lineage, fs[k], gs[k], st, hi, log') {
      FieldCopiedWiden(src, lineage, fs[k], gs[k], st, hi, log, st, hi, log');
    }
  }

  /** A field whose array value was walked row by row, written back. */
  lemma RowsWrittenBack(src: Space, lineage: seq<Value>, f: Field, out: seq<Value>,
                        st: DestState, hi: nat, log: seq<Event>)
    requires Locale in f.locales && f.locales[Locale].Arr?
    requires RowsCopied(src, lineage, f.locales[Locale].items, out, 0, st, hi, log)
    ensures FieldCopied(src, lineage, f, Field(f.name, f.locales[Locale := Arr(out)]), st, hi, log)
  {
    var g := Field(f.name, f.locales[Locale := Arr(out)]);
    assert Checked(g) == out && Checked(f) == f.locales[Locale].items;
  }

  /** A field whose value is not an array, walked as one value and written back. */
  lemma ValueWrittenBack(src: Space, lineage: seq<Value>, f: Field, w: Value,
                         st: DestState, hi: nat, log: seq<Event>)
    requires Locale in f.locales && !f.locales[Locale].Arr?
    requires LinkCopied(src, lineage, f.locales[Locale], w, st, hi, log)
    ensures FieldCopied(src, lineage, f, Field(f.name, f.locales[Locale := w]), st, hi, log)
  {
    var v, g := f.locales[Locale], Field(f.name, f.locales[Locale := w]);
    if IsLinkOf(v, "Entry") {
      LinkHasSys(v, "Entry");
    }
    assert Checked(g) == [w] && Checked(f) == [v];
  }

  // ----- source lookups -----

  /** `fromEnvironment.getEntry(id)`. */
  function GetEntry(src: Space, id: Value): Result<Entry> {
    if id.Str? && id.s in src.entries then Success(src.entries[id.s]) else Failure(EntryNotFound(id))
  }

  /** `fromEnvironment.getAsset(id)`. */
  function GetAsset(src: Space, id: Value): Result<Asset> {
    if id.Str? && id.s in src.assets then Success(src.assets[id.s]) else Failure(AssetNotFound(id))
  }

  // ----- copyAsset -----

  /** The new `file` map: only the copier's locale, holding the file name, the
      content type and an upload URL made by prefixing the source URL with
      "https:"; empty when the source has no (truthy) file for that locale. */
  function FileMap(fromFile: Value): (file: map<string, Value>)
    ensures file.Keys == (if Truthy(fromFile) then {Locale} else {})
    ensures Locale in file ==>
              && file[Locale].Obj?
              && file[Locale].props.Keys == {"fileName", "contentType", "upload"}
              && file[Locale].props["fileName"] == Prop(fromFile, "fileName")
              && file[Locale].props["contentType"] == Prop(fromFile, "contentType")
              && file[Locale].props["upload"].Str?
              && "https:" <= file[Locale].props["upload"].s
              && (Prop(fromFile, "url").Str? ==>
                    file[Locale].props["upload"].s == "https:" + Prop(fromFile, "url").s)
              && file[Locale].props["upload"] == Str("https:" + TemplateString(Prop(fromFile, "url")))
  {
    if Truthy(fromFile) then
      map[Locale := Obj(map[
        "fileName" := Prop(fromFile, "fileName"),
        "contentType" := Prop(fromFile, "contentType"),
        "upload" := Str("https:" + TemplateString(Prop(fromFile, "url")))])]
    else map[]
  }

  /** The fields the asset copy is created with: `{ ...fields, file }`, the
      source fields with the `file` field (at index `k`) replaced. */
  function AssetCopyFields(fields: Fields, k: nat): Fields
    requires k < |fields|
  {
    fields[k := Field(fields[k].name, FileMap(LocaleValue(fields[k])))]
  }

  /** `copyAsset(id, parents)`: creates the asset copy and processes it, and
      then resolves to `undefined` (the function has no `return`). */
  ghost function CopyAssetF(src: Space, id: Value, parents: seq<Value>, st: DestState): (o: Run<Value>)
    ensures o.result.Failure? ==> o.dst == st
    ensures o.result.Failure? ==>
              if id.Str? && id.s in src.assets then o.result.error == NoFileField(id.s)
              else o.result.error == AssetNotFound(id)
    ensures o.result.Success? <==>
              id.Str? && id.s in src.assets && FindField(src.assets[id.s].fields, "file").Some?
    ensures o.result.Success? ==>
              var fs := src.assets[id.s].fields;
              var k := FindField(fs, "file").value;
              var n := |st.log|;
              && o.result.value == Undefined
              && o.dst.issued == st.issued + 1
              && |o.dst.log| == n + 2 && st.log <= o.dst.log
              && o.dst.log[n].AssetCreated? && o.dst.log[n].id == st.NextId()
              && o.dst.log[n].lineage == Lineage(parents, id)
              && o.dst.log[n + 1] == AssetProcessed(st.NextId(), Lineage(parents, id))
              && var gs := o.dst.log[n].fields;
                 && |gs| == |fs|
                 && (forall i :: 0 <= i < |fs| && i != k ==> gs[i] == fs[i])
                 && gs[k] == Field("file", FileMap(LocaleValue(fs[k])))
  {
    var lineage := Lineage(parents, id);
    match GetAsset(src, id)
    case Failure(e) => Run(Failure(e), st)
    case Success(asset) =>
      match FindField(asset.fields, "file")
      case None => Run(Failure(NoFileField(id.s)), st)
      case Some(k) =>
        var newId := st.NextId();
        var created := st.Record(AssetCreated(newId, AssetCopyFields(asset.fields, k), lineage));
        Run(Success(Undefined), created.Record(AssetProcessed(newId, lineage)))
  }

  // ----- copyEntry -----

  /** The asset half of the link handling (index.js:72-78, 89-95). */
  ghost function AssetLinkF(src: Space, v: Value, lineage: seq<Value>, st: DestState): (o: Run<Value>)
    ensures Extends(st, o.dst) && Deeper(st.log, o.dst.log, lineage)
    ensures o.result.Success? <==> !IsLinkOf(v, "Asset")
    ensures o.result.Success? ==> o.result.value == v && o.dst == st
  {
    if IsLinkOf(v, "Asset") then
      var a := CopyAssetF(src, LinkTarget(v), lineage, st);
      if a.result.Failure? then Run(Failure(a.result.error), a.dst)
      else
        match DestructureSysId(a.result.value)
        case Failure(e) => Run(Failure(e), a.dst)
        case Success(id) => Run(Success(SetLinkId(v, id)), a.dst)
    else Run(Success(v), st)
  }

  /** One value as the copier treats a scalar field value or an array row
      (index.js:64-78, 81-95): an entry link is copied and re-pointed at the
      copy, then an asset link is copied and re-pointed; anything else is
      kept as it is. */
  ghost function LinkF(src: Space, rank: map<string, nat>, v: Value, lineage: seq<Value>,
                       r: nat, st: DestState): (o: Run<Value>)
    requires Acyclic(src, rank) && LinkBelow(src, rank, v, r)
    decreases r, 0, 0
    ensures Extends(st, o.dst) && Deeper(st.log, o.dst.log, lineage)
    ensures o.result.Success? ==>
              && EntriesOnly(st, o.dst)
              && LinkCopied(src, lineage, v, o.result.value, st, o.dst.issued, o.dst.log)
              && if IsLinkOf(v, "Entry") then
                   st.issued < o.dst.issued && CopyNo(o.result.value) == o.dst.issued - 1
                 else o.dst == st
  {
    if IsLinkOf(v, "Entry") then
      var c := CopyEntryF(src, rank, LinkTarget(v), lineage, st);
      if c.result.Failure? then Run(Failure(c.result.error), c.dst)
      else
        EntryLinkCopied(src, lineage, v, st, c.dst);
        AssetLinkF(src, SetLinkId(v, Str(c.result.value)), lineage, c.dst)
    else AssetLinkF(src, v, lineage, st)
  }

  /** The rows of an array value from index `j` on, in order (index.js:63-79). */
  ghost function RowsF(src: Space, rank: map<string, nat>, rows: seq<Value>, j: nat,
                       lineage: seq<Value>, r: nat, st: DestState): (o: Run<seq<Value>>)
    requires Acyclic(src, rank) && j <= |rows|
    requires forall k :: j <= k < |rows| ==> LinkBelow(src, rank, rows[k], r)
    decreases r, 1, |rows| - j
    ensures Extends(st, o.dst) && Deeper(st.log, o.dst.log, lineage)
    ensures o.result.Success? ==>
              && EntriesOnly(st, o.dst)
              && RowsCopied(src, lineage, rows, o.result.value, j, st, o.dst.issued, o.dst.log)
  {
    if j == |rows| then Run(Success(rows), st)
    else
      var w := LinkF(src, rank, rows[j], lineage, r, st);
      if w.result.Failure? then Run(Failure(w.result.error), w.dst)
      else
        var o := RowsF(src, rank, rows[j := w.result.value], j + 1, lineage, r, w.dst);
        StepsCompose(st, w.dst, o.dst, lineage);
        if o.result.Failure? then o
        else
          RowsCopiedStep(src, lineage, rows, o.result.value, j, w.result.value, st, w.dst, o.dst);
          o
  }

  /** One field (index.js:60-96): only its value for the copier's locale is
      looked at; an array is walked row by row, anything else is one value. */
  ghost function FieldF(src: Space, rank: map<string, nat>, f: Field, lineage: seq<Value>,
                        r: nat, st: DestState): (o: Run<Field>)
    requires Acyclic(src, rank) && FieldBelow(src, rank, f, r)
    decreases r, 2, 0
    ensures Extends(st, o.dst) && Deeper(st.log, o.dst.log, lineage)
    ensures o.result.Success? ==>
              EntriesOnly(st, o.dst) && FieldCopied(src, lineage, f, o.result.value, st, o.dst.issued, o.dst.log)
  {
    if Locale !in f.locales then Run(Success(f), st)
    else
      var v := f.locales[Locale];
      if v.Arr? then
        var w := RowsF(src, rank, v.items, 0, lineage, r, st);
        if w.result.Failure? then Run(Failure(w.result.error), w.dst)
        else
          RowsWrittenBack(src, lineage, f, w.result.value, st, w.dst.issued, w.dst.log);
          Run(Success(Field(f.name, f.locales[Locale := Arr(w.result.value)])), w.dst)
      else
        var w := LinkF(src, rank, v, lineage, r, st);
        if w.result.Failure? then Run(Failure(w.result.error), w.dst)
        else
          ValueWrittenBack(src, lineage, f, w.result.value, st, w.dst.issued, w.dst.log);
          Run(Success(Field(f.name, f.locales[Locale := w.result.value])), w.dst)
  }

  /** The fields from index `i` on, in key order (index.js:59-97). */
  ghost function FieldsF(src: Space, rank: map<string, nat>, fs: Fields, i: nat,
                         lineage: seq<Value>, r: nat, st: DestState): (o: Run<Fields>)
    requires Acyclic(src, rank) && i <= |fs| && FieldsBelow(src, rank, fs, i, r)
    decreases r, 3, |fs| - i
    ensures Extends(st, o.dst) && Deeper(st.log, o.dst.log, lineage)
    ensures o.result.Success? ==>
              && EntriesOnly(st, o.dst)
              && FieldsCopied(src, lineage, fs, o.result.value, i, st, o.dst.issued, o.dst.log)
  {
    if i == |fs| then Run(Success(fs), st)
    else
      var w := FieldF(src, rank, fs[i], lineage, r, st);
      if w.result.Failure? then Run(Failure(w.result.error), w.dst)
      else
        var o := FieldsF(src, rank, fs[i := w.result.value], i + 1, lineage, r, w.dst);
        StepsCompose(st, w.dst, o.dst, lineage);
        if o.result.Failure? then o
        else
          FieldsCopiedStep(src, lineage, fs, o.result.value, i, w.result.value, st, w.dst, o.dst);
          o
  }

  /** What a successful copy of entry `id` that started at `st` left behind
      in `after`, its result being `newId`. Every write was an entry creation,
      and the last one is the copy itself: its id is the result, it has the
      source's content type, the lineage `[...parents, id]` and the source's
      fields with every link the copier met re-pointed as `FieldsCopied`
      states. Every earlier write of the run was made under a strictly longer
      lineage, while copying something the entry links to. */
  ghost predicate EntryCopied(src: Space, id: Value, parents: seq<Value>, st: DestState,
                              newId: string, after: DestState) {
    && id.Str? && id.s in src.entries
    && Extends(st, after)
    && EntriesOnly(st, after)
    && |st.log| < |after.log|
    && st.issued < after.issued
    && newId == IdOf(after.issued - 1)
    && Deeper(st.log, after.log[..|after.log| - 1], Lineage(parents, id))
    && var last := after.log[|after.log| - 1];
       && last.EntryCreated?
       && last.id == newId
       && last.contentTypeId == src.entries[id.s].contentTypeId
       && last.lineage == Lineage(parents, id)
       && FieldsCopied(src, Lineage(parents, id), src.entries[id.s].fields, last.fields, 0,
                       st, after.issued - 1, after.log)
  }

  /** Creating the copy after a successful walk over its fields. */
  lemma CreatedLast(src: Space, id: Value, parents: seq<Value>, st: DestState,
                    mid: DestState, gs: Fields)
    requires id.Str? && id.s in src.entries
    requires Extends(st, mid) && EntriesOnly(st, mid) && Deeper(st.log, mid.log, Lineage(parents, id))
    requires FieldsCopied(src, Lineage(parents, id), src.entries[id.s].fields, gs, 0, st, mid.issued, mid.log)
    ensures var entry := src.entries[id.s];
            var after := mid.Record(EntryCreated(mid.NextId(), entry.contentTypeId, gs, Lineage(parents, id)));
            && EntryCopied(src, id, parents, st, mid.NextId(), after)
            && Deeper(st.log, after.log, parents)
  {
    var entry, lineage := src.entries[id.s], Lineage(parents, id);
    var after := mid.Record(EntryCreated(mid.NextId(), entry.contentTypeId, gs, lineage));
    EntriesOnlyRecord(st, mid, entry.contentTypeId, gs, lineage);
    assert after.issued - 1 == mid.issued;
    assert after.log[..|after.log| - 1] == mid.log;
    DeeperLast(st.log, after.log, parents, lineage);
    FieldsCopiedGrow(src, lineage, entry.fields, gs, st, mid.issued, mid.log, after.log);
  }

  /** `copyEntry(id, parents)`: fetch, walk the fields, then create the copy
      from the rewritten fields; the result is the copy's id. */
  ghost function CopyEntryF(src: Space, rank: map<string, nat>, id: Value, parents: seq<Value>,
                            st: DestState): (o: Run<string>)
    requires Acyclic(src, rank) && Ranked(src, rank, id)
    decreases RankOf(src, rank, id), 4, 0
    ensures Extends(st, o.dst) && Deeper(st.log, o.dst.log, parents)
    ensures o.result.Failure? ==> Deeper(st.log, o.dst.log, Lineage(parents, id))
    ensures !(id.Str? && id.s in src.entries) ==> o == Run(Failure(EntryNotFound(id)), st)
    ensures o.result.Success? ==> EntryCopied(src, id, parents, st, o.result.value, o.dst)
  {
    var lineage := Lineage(parents, id);
    match GetEntry(src, id)
    case Failure(e) => Run(Failure(e), st)
    case Success(entry) =>
      var w := FieldsF(src, rank, entry.fields, 0, lineage, RankOf(src, rank, id), st);
      if w.result.Failure? then
        DeeperPrefix(st.log, w.dst.log, parents, lineage);
        Run(Failure(w.result.error), w.dst)
      else
        var newId := w.dst.NextId();
        var after := w.dst.Record(EntryCreated(newId, entry.contentTypeId, w.result.value, lineage));
        CreatedLast(src, id, parents, st, w.dst, w.result.value);
        Run(Success(newId), after)
  }
}
