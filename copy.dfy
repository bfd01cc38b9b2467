/** The copier as the code runs it: `copyEntry` walks the fetched fields with
    two nested loops, rewrites link ids in place and only then creates the copy;
    `copyAsset` builds the new `file` map by assignment. Each method is proved
    to compute exactly the function of the same step in module CopySpec, so the
    properties proved there hold of these methods. */
module Copy {
  import opened Json
  import opened Entity
  import opened Failures
  import opened Links
  import opened Destination
  import opened CopySpec

  /** `copyAsset(assetId, parents)` (index.js:125-171). On success it resolves
      to `undefined`. */
  method CopyAsset(src: Space, dst: Environment, assetId: Value, parents: seq<Value>)
    returns (r: Result<Value>)
    requires dst.Valid()
    modifies dst
    ensures dst.Valid()
    ensures Run(r, dst.Snapshot()) == CopyAssetF(src, assetId, parents, old(dst.Snapshot()))
  {
    var lineage := Lineage(parents, assetId);
    var fetched := GetAsset(src, assetId);
    if fetched.Failure? {
      return Failure(fetched.error);
    }
    var fromAsset := fetched.value;
    var fileAt := FindField(fromAsset.fields, "file");
    if fileAt.None? {
      return Failure(NoFileField(assetId.s));
    }
    var k := fileAt.value;
    var file: map<string, Value> := map[];
    var fromFile := LocaleValue(fromAsset.fields[k]);
    if Truthy(fromFile) {
      file := file[Locale := Obj(map[
        "fileName" := Prop(fromFile, "fileName"),
        "contentType" := Prop(fromFile, "contentType"),
        "upload" := Str("https:" + TemplateString(Prop(fromFile, "url")))])];
    }
    var fields := fromAsset.fields[k := Field(fromAsset.fields[k].name, file)];
    var toAssetId := dst.CreateAsset(fields, lineage);
    dst.ProcessForAllLocales(toAssetId, lineage);
    r := Success(Undefined);
  }

  /** The two link checks applied to one value, a scalar field value or an
      array row (index.js:64-78 and 81-95): returns the value with its link id
      rewritten. */
  method RewriteLink(src: Space, ghost rank: map<string, nat>, dst: Environment, v: Value,
                     lineage: seq<Value>, ghost r: nat)
    returns (res: Result<Value>)
    requires Acyclic(src, rank) && LinkBelow(src, rank, v, r) && dst.Valid()
    modifies dst
    decreases r, 0
    ensures dst.Valid()
    ensures Run(res, dst.Snapshot()) == LinkF(src, rank, v, lineage, r, old(dst.Snapshot()))
  {
    var row := v;
    ghost var st := dst.Snapshot();
    if IsLinkOf(row, "Entry") {
      var copied := CopyEntry(src, rank, dst, LinkTarget(row), lineage);
      if copied.Failure? {
        return Failure(copied.error);
      }
      row := SetLinkId(row, Str(copied.value));
    }
    assert AssetLinkF(src, row, lineage, dst.Snapshot()) == LinkF(src, rank, v, lineage, r, st);
    if IsLinkOf(row, "Asset") {
      var copied := CopyAsset(src, dst, LinkTarget(row), lineage);
      if copied.Failure? {
        return Failure(copied.error);
      }
      var id := DestructureSysId(copied.value);
      match id {
        case Failure(e) => return Failure(e);
        case Success(toAssetId) => row := SetLinkId(row, toAssetId);
      }
    }
    res := Success(row);
  }

  /** The rows of an array value, in order (index.js:63-79): each row goes
      through the two link checks and is replaced by the result. */
  method RewriteRows(src: Space, ghost rank: map<string, nat>, dst: Environment, items: seq<Value>,
                     lineage: seq<Value>, ghost r: nat)
    returns (res: Result<seq<Value>>)
    requires Acyclic(src, rank) && dst.Valid()
    requires forall k :: 0 <= k < |items| ==> LinkBelow(src, rank, items[k], r)
    modifies dst
    decreases r, 1
    ensures dst.Valid()
    ensures Run(res, dst.Snapshot()) == RowsF(src, rank, items, 0, lineage, r, old(dst.Snapshot()))
  {
    var rows := items;
    var j := 0;
    while j < |rows|
      invariant 0 <= j <= |rows| == |items|
      invariant rows[j..] == items[j..]
      invariant dst.Valid()
      invariant forall k :: j <= k < |rows| ==> LinkBelow(src, rank, rows[k], r)
      invariant RowsF(src, rank, rows, j, lineage, r, dst.Snapshot())
                == RowsF(src, rank, items, 0, lineage, r, old(dst.Snapshot()))
    {
      var row := RewriteLink(src, rank, dst, rows[j], lineage, r);
      if row.Failure? {
        return Failure(row.error);
      }
      rows := rows[j := row.value];
      j := j + 1;
    }
    res := Success(rows);
  }

  /** One field (index.js:60-96): its value for the copier's locale is walked
      row by row when it is an array and handled as one value otherwise. */
  method RewriteField(src: Space, ghost rank: map<string, nat>, dst: Environment, f: Field,
                      lineage: seq<Value>, ghost r: nat)
    returns (res: Result<Field>)
    requires Acyclic(src, rank) && FieldBelow(src, rank, f, r) && dst.Valid()
    modifies dst
    decreases r, 2
    ensures dst.Valid()
    ensures Run(res, dst.Snapshot()) == FieldF(src, rank, f, lineage, r, old(dst.Snapshot()))
  {
    if Locale !in f.locales {
      return Success(f);
    }
    var field := f.locales[Locale];
    if field.Arr? {
      var rows := RewriteRows(src, rank, dst, field.items, lineage, r);
      if rows.Failure? {
        return Failure(rows.error);
      }
      res := Success(Field(f.name, f.locales[Locale := Arr(rows.value)]));
    } else {
      var value := RewriteLink(src, rank, dst, field, lineage, r);
      if value.Failure? {
        return Failure(value.error);
      }
      res := Success(Field(f.name, f.locales[Locale := value.value]));
    }
  }

  /** `copyEntry(entryId, parents)` (index.js:43-119): fetch the entry, walk its
      fields in key order, rewriting link ids in place, then create the copy;
      the result is the copy's id. */
  method CopyEntry(src: Space, ghost rank: map<string, nat>, dst: Environment, entryId: Value,
                   parents: seq<Value>)
    returns (res: Result<string>)
    requires Acyclic(src, rank) && Ranked(src, rank, entryId) && dst.Valid()
    modifies dst
    decreases RankOf(src, rank, entryId), 3
    ensures dst.Valid()
    ensures Run(res, dst.Snapshot()) == CopyEntryF(src, rank, entryId, parents, old(dst.Snapshot()))
  {
    var lineage := Lineage(parents, entryId);
    var fetched := GetEntry(src, entryId);
    if fetched.Failure? {
      return Failure(fetched.error);
    }
    var fromEntry := fetched.value;
    ghost var r := RankOf(src, rank, entryId);
    ghost var st0 := dst.Snapshot();
    var fields := fromEntry.fields;
    var i := 0;
    while i < |fields|
      invariant 0 <= i <= |fields| == |fromEntry.fields|
      invariant fields[i..] == fromEntry.fields[i..]
      invariant dst.Valid()
      invariant FieldsBelow(src, rank, fields, i, r)
      invariant FieldsF(src, rank, fields, i, lineage, r, dst.Snapshot())
                == FieldsF(src, rank, fromEntry.fields, 0, lineage, r, st0)
    {
      assert FieldBelow(src, rank, fields[i], r);
      var field := RewriteField(src, rank, dst, fields[i], lineage, r);
      if field.Failure? {
        return Failure(field.error);
      }
      fields := fields[i := field.value];
      i := i + 1;
    }
    var toEntryId := dst.CreateEntry(fromEntry.contentTypeId, fields, lineage);
    res := Success(toEntryId);
  }
}
