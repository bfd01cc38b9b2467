/** Entries and assets of a content environment in their plain-object form:
    a `sys` part with the revision counters, and a field map from field id to
    a map from locale code to value. The field map keeps its key order, which
    is the order `Object.keys` walks it in. */
module Entity {
  import opened Json

  /** The one locale the copier looks at (`locale = { code: 'en-US' }`). */
  const Locale: string := "en-US"

  datatype Option<T> = None | Some(value: T)

  /** One field: its id and its value per locale code. */
  datatype Field = Field(name: string, locales: map<string, Value>)

  /** The fields of an entity, in key order. */
  type Fields = seq<Field>

  /** Revision counters of an entity; an absent `publishedVersion` is `None`. */
  datatype EntitySys = EntitySys(version: int, publishedVersion: Option<int>)

  datatype Entry = Entry(sys: EntitySys, contentTypeId: string, fields: Fields)

  datatype Asset = Asset(sys: EntitySys, fields: Fields)

  /** A source environment: its entries and assets by id. */
  datatype Space = Space(entries: map<string, Entry>, assets: map<string, Asset>)

  /** `fields[fieldId][locale.code]`: the value of `f` for the copier's locale,
      `undefined` when the field has none. */
  function LocaleValue(f: Field): Value {
    if Locale in f.locales then f.locales[Locale] else Undefined
  }

  /** `isPublished`: the entity has a truthy `publishedVersion` and exactly one
      revision after it (publishing itself bumps `version` once). */
  predicate IsPublished(sys: EntitySys) {
    sys.publishedVersion.Some? && sys.publishedVersion.value != 0
    && sys.version == sys.publishedVersion.value + 1
  }

  /** The truth table of `isPublished`: never published, or a `publishedVersion`
      of 0, means unpublished whatever `version` says; otherwise it is published
      exactly when `version` is one past `publishedVersion`, so an entity edited
      after publishing (two or more past) is not. */
  lemma IsPublishedTable(version: int, published: int)
    ensures !IsPublished(EntitySys(version, None))
    ensures !IsPublished(EntitySys(version, Some(0)))
    ensures published != 0 ==>
      (IsPublished(EntitySys(version, Some(published))) <==> version == published + 1)
    ensures IsPublished(EntitySys(version, Some(published))) ==> published != 0 && version != published
  {
  }

  /** The position of the first field called `name` at index `from` or later,
      the field a property read `fields.name` finds. */
  function FindFieldFrom(fs: Fields, name: string, from: nat): (r: Option<nat>)
    requires from <= |fs|
    ensures r.Some? ==> from <= r.value < |fs| && fs[r.value].name == name
                        && forall k :: from <= k < r.value ==> fs[k].name != name
    ensures r.None? ==> forall k :: from <= k < |fs| ==> fs[k].name != name
    decreases |fs| - from
  {
    if from == |fs| then None
    else if fs[from].name == name then Some(from)
    else FindFieldFrom(fs, name, from + 1)
  }

  function FindField(fs: Fields, name: string): Option<nat> {
    FindFieldFrom(fs, name, 0)
  }
}
