/** The ways a copy run stops. Every one of them rejects the promise of the
    copy and, through the process-level rejection handler, ends the run. */
module Failures {
  import opened Json

  datatype Error =
    | EntryNotFound(entryId: Value)   // `getEntry` rejects: no entry with that id
    | AssetNotFound(assetId: Value)   // `getAsset` rejects: no asset with that id
    | NoFileField(fileAssetId: string) // `fromAssetData.fields.file` is undefined
    | CannotDestructure               // `const { sys: { id } } = v` with no `v.sys`

  datatype Result<T> = Success(value: T) | Failure(error: Error)
}
