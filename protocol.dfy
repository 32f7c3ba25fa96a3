/**
 * The values the extension exchanges with its host: what a storage read
 * delivers, and the message the popup sends to the page.
 */
module Protocol {
  import opened Wrappers

  /** The width used until a stored one is known, in rem. */
  const DEFAULT_WIDTH := 80

  /** `storage.sync.get(['widthSettings'])`: the promise's value, or its rejection. */
  datatype StorageRead = Loaded(widthSettings: Option<map<string, int>>) | ReadFailed

  /** A message between popup and page: `{ action, width }`. */
  datatype Message = Message(action: string, width: int)

  const UPDATE_WIDTH := "updateWidth"

  /** A number is truthy when it is not zero. */
  predicate Truthy(w: int) {
    w != 0
  }

  /**
   * `result.widthSettings && result.widthSettings[site]`, when truthy: the
   * entry stored for the site, present only after a successful read that
   * found a truthy value under the site's key.
   */
  function StoredEntry(read: StorageRead, site: string): (entry: Option<int>)
    ensures entry.Some? ==>
      read.Loaded? && read.widthSettings.Some? && site in read.widthSettings.value &&
      entry.value == read.widthSettings.value[site] && Truthy(entry.value)
    ensures entry.None? && read.Loaded? && read.widthSettings.Some? && site in read.widthSettings.value ==>
      !Truthy(read.widthSettings.value[site])
  {
    if read.Loaded? && read.widthSettings.Some? && site in read.widthSettings.value &&
       Truthy(read.widthSettings.value[site])
    then Some(read.widthSettings.value[site])
    else None
  }
}
