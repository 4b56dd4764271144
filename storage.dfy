/** The two-tier persistence of the gallery list: `saveImagesToStorage`
    writes to localStorage and, only when that write throws, to IndexedDB;
    `loadImagesFromStorage` reads localStorage first, then IndexedDB, then
    settles for the empty list. Each store is one abstract slot; JSON
    encoding is abstracted into the slot's value. */
module Storage {

  /** What a store holds under the gallery's key, as the loader sees it. */
  datatype Stored =
    | Missing                       // no value, or a falsy one (the empty string)
    | Malformed                     // text that JSON.parse rejects
    | NotAnArray                    // valid JSON that is not an array
    | ArrayOf(items: seq<string>)   // a JSON array of image sources

  /** The localStorage entry `memories_images_v1` and the IndexedDB record
      `images` of store `images-store` in database `memories-db`. */
  datatype Slots = Slots(local: Stored, idb: Stored)

  /** Which writes throw during one save: localStorage's `setItem` (quota
      exceeded, storage disabled) and the IndexedDB `put` (no IndexedDB, an
      open or request error). */
  datatype WriteFaults = WriteFaults(localThrows: bool, idbThrows: bool)

  /** Which reads fail during one load: localStorage's `getItem` throwing,
      and IndexedDB failing to open or to answer the request. */
  datatype ReadFaults = ReadFaults(localThrows: bool, idbFails: bool)

  /** The answer of one save and the stores after it. */
  datatype Saved = Saved(ok: bool, slots: Slots)

  /** `saveImagesToStorage` for the list `items`. A throwing write leaves
      its store as it was. */
  function Save(s: Slots, items: seq<string>, f: WriteFaults): Saved {
    if !f.localThrows then Saved(true, s.(local := ArrayOf(items)))
    else if !f.idbThrows then Saved(true, s.(idb := ArrayOf(items)))
    else Saved(false, s)
  }

  /** The list `loadImagesFromStorage` installs. */
  function Load(s: Slots, f: ReadFaults): seq<string> {
    if !f.localThrows && s.local.ArrayOf? then s.local.items
    else if !f.idbFails && s.idb.ArrayOf? then s.idb.items
    else []
  }

  /** A save reports success exactly when one of the two writes went through;
      a primary write that succeeds leaves IndexedDB untouched, and a save in
      which both writes throw changes nothing. */
  lemma SaveOutcome(s: Slots, items: seq<string>, f: WriteFaults)
    ensures Save(s, items, f).ok <==> !f.localThrows || !f.idbThrows
    ensures !f.localThrows ==> Save(s, items, f).slots.idb == s.idb
    ensures Save(s, items, f).slots.local == (if f.localThrows then s.local else ArrayOf(items))
    ensures f.localThrows && f.idbThrows ==> Save(s, items, f).slots == s
  {
  }

  /** A save whose localStorage write succeeds is read back as the same list
      (when localStorage can be read). */
  lemma PrimarySaveRoundTrip(s: Slots, items: seq<string>, f: WriteFaults, g: ReadFaults)
    requires !f.localThrows && !g.localThrows
    ensures Load(Save(s, items, f).slots, g) == items
  {
  }

  /** A save that falls back to IndexedDB is read back as the same list only
      when localStorage holds no array: an older array left in localStorage
      by the failed write is found first and wins. */
  lemma FallbackSaveRoundTrip(s: Slots, items: seq<string>, f: WriteFaults, g: ReadFaults)
    requires f.localThrows && !f.idbThrows && !g.idbFails
    ensures Load(Save(s, items, f).slots, g) ==
      if !g.localThrows && s.local.ArrayOf? then s.local.items else items
  {
  }

  /** Loading takes the primary store's array if it has one, otherwise the
      secondary store's array, otherwise the empty list. */
  lemma LoadOrder(s: Slots, f: ReadFaults)
    ensures !f.localThrows && s.local.ArrayOf? ==> Load(s, f) == s.local.items
    ensures (f.localThrows || !s.local.ArrayOf?) && !f.idbFails && s.idb.ArrayOf? ==> Load(s, f) == s.idb.items
    ensures (f.localThrows || !s.local.ArrayOf?) && (f.idbFails || !s.idb.ArrayOf?) ==> Load(s, f) == []
  {
  }

  /** The browser's storage as the page sees it. */
  class BrowserStorage {
    var local: Stored
    var idb: Stored

    /** The stores' current values. */
    function Contents(): Slots
      reads this
    {
      Slots(local, idb)
    }

    constructor (initial: Slots)
      ensures Contents() == initial
    {
      local, idb := initial.local, initial.idb;
    }
  }
}
