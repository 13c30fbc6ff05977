/** The browser-side ownership record: a map from card id to a pair of flags,
    kept in one local-storage slot as a JSON document with a version tag. */
module Ownership {
  import opened Collections

  /** Which variants of one card are owned. */
  datatype Entry = Entry(regular: bool, foil: bool)

  /** The record's `owned` object, keyed by card id. */
  type Owned = map<string, Entry>

  /** The version tag stamped on every save. */
  const Version: string := "1.0"

  /** What a card id without an entry means: neither variant owned. */
  const NotOwned: Entry := Entry(false, false)

  /** The flags of `id`, with a missing entry read as neither variant owned. */
  function Lookup(owned: Owned, id: string): (e: Entry)
    ensures id in owned ==> e == owned[id]
    ensures id !in owned ==> !e.regular && !e.foil
  {
    if id in owned then owned[id] else NotOwned
  }

  /** No entry has both flags false: such entries are deleted, not stored. */
  predicate Pruned(owned: Owned)
  {
    forall id :: id in owned ==> owned[id].regular || owned[id].foil
  }

  /** The entry with one variant flag inverted. */
  function Flip(e: Entry, foil: bool): Entry
  {
    if foil then e.(foil := !e.foil) else e.(regular := !e.regular)
  }

  /** The result of a toggle: the new record and the entry it now holds for the
      card, or `None` when the entry was deleted. */
  datatype Toggled = Toggled(owned: Owned, entry: Option<Entry>)

  /** Inverts the regular or foil flag of `cardId`, starting from an all-false
      entry when there is none, and deletes the entry if both flags end up false. */
  function Toggle(owned: Owned, cardId: string, foil: bool): (r: Toggled)
    // the named flag is inverted, the other one kept
    ensures foil ==> Lookup(r.owned, cardId).foil == !Lookup(owned, cardId).foil
                     && Lookup(r.owned, cardId).regular == Lookup(owned, cardId).regular
    ensures !foil ==> Lookup(r.owned, cardId).regular == !Lookup(owned, cardId).regular
                      && Lookup(r.owned, cardId).foil == Lookup(owned, cardId).foil
    // the toggled card never keeps an all-false entry
    ensures cardId in r.owned ==> r.owned[cardId].regular || r.owned[cardId].foil
    // every other card is untouched
    ensures forall id :: id != cardId ==> (id in r.owned <==> id in owned)
    ensures forall id :: id != cardId && id in owned ==> r.owned[id] == owned[id]
    // the returned entry is what the record now holds
    ensures r.entry == (if cardId in r.owned then Some(r.owned[cardId]) else None)
  {
    var e := Flip(Lookup(owned, cardId), foil);
    if !e.regular && !e.foil then Toggled(owned - {cardId}, None)
    else Toggled(owned[cardId := e], Some(e))
  }

  /** A pruned record stays pruned under every toggle. */
  lemma TogglePreservesPruned(owned: Owned, cardId: string, foil: bool)
    requires Pruned(owned)
    ensures Pruned(Toggle(owned, cardId, foil).owned)
  {
  }

  /** Toggling the same variant of the same card twice restores that card's
      flags, reading absence as neither variant owned. */
  lemma ToggleTwiceRestoresCard(owned: Owned, cardId: string, foil: bool)
    ensures Lookup(Toggle(Toggle(owned, cardId, foil).owned, cardId, foil).owned, cardId)
            == Lookup(owned, cardId)
  {
  }

  /** On a record where the card has no all-false entry, toggling twice gives
      back exactly the original record. */
  lemma ToggleTwiceRestoresRecord(owned: Owned, cardId: string, foil: bool)
    requires cardId in owned ==> owned[cardId].regular || owned[cardId].foil
    ensures Toggle(Toggle(owned, cardId, foil).owned, cardId, foil).owned == owned
  {
    var twice := Toggle(Toggle(owned, cardId, foil).owned, cardId, foil).owned;
    assert twice.Keys == owned.Keys;
  }

  // ----- The persisted document -----

  /** The JSON value found under a document's `owned` key. */
  datatype OwnedField =
    | NoField               // key missing, or `null`
    | FalsyScalar           // `false`, `0` or `""`
    | TruthyScalar          // any other number, string or `true`
    | ArrayValue            // an array: `typeof` says 'object'
    | ObjectValue(entries: Owned)

  /** A stored or imported collection document. */
  datatype Document = Document(owned: OwnedField, version: Option<string>, lastUpdated: Option<string>)

  /** What is returned when nothing usable is stored. */
  const EmptyDocument: Document := Document(ObjectValue(map[]), Some(Version), None)

  /** Reads the slot: a missing or empty slot, or text that does not parse,
      yields an empty record tagged with the current version; anything that
      parses is returned as it is. `parse` stands for `JSON.parse`, `None`
      meaning it threw. */
  function GetCollection(slot: Option<string>, parse: string -> Option<Document>): (d: Document)
    ensures slot == None || slot == Some("") ==> d == EmptyDocument
    ensures slot.Some? && slot.value != "" && parse(slot.value) == None ==> d == EmptyDocument
    ensures slot.Some? && slot.value != "" && parse(slot.value).Some? ==> d == parse(slot.value).value
  {
    match slot
    case None => EmptyDocument
    case Some(text) =>
      if text == "" then EmptyDocument
      else parse(text).GetOr(EmptyDocument)
  }

  /** The document written on save: the record with the current version tag and
      the save time `now`; everything else is kept. */
  function SaveCollection(d: Document, now: string): (saved: Document)
    ensures saved.owned == d.owned
    ensures saved.version == Some(Version) && saved.lastUpdated == Some(now)
  {
    d.(version := Some(Version), lastUpdated := Some(now))
  }

  /** Why a toggle could not run: the stored `owned` value cannot take a new
      key (reading or assigning a property of it throws a TypeError). */
  datatype ToggleError = OwnedNotAnObject

  /** `toggleCard` on a stored document: toggles inside an `owned` object and
      saves. On an array the new key is set and returned but is not part of the
      array's JSON, so the saved `owned` is unchanged. Any other `owned` throws. */
  function ToggleCard(d: Document, cardId: string, foil: bool, now: string)
    : (r: Result<(Document, Option<Entry>), ToggleError>)
    ensures d.owned.ObjectValue? <==> r.Ok? && r.value.0.owned.ObjectValue?
    ensures d.owned.ObjectValue? ==>
              r == Ok((SaveCollection(d.(owned := ObjectValue(Toggle(d.owned.entries, cardId, foil).owned)), now),
                       Toggle(d.owned.entries, cardId, foil).entry))
    ensures d.owned.ArrayValue? ==>
              r.Ok? && r.value.0 == SaveCollection(d, now) && r.value.1 == Some(Flip(NotOwned, foil))
    ensures r.Err? <==> !(d.owned.ObjectValue? || d.owned.ArrayValue?)
  {
    match d.owned
    case ObjectValue(entries) =>
      var t := Toggle(entries, cardId, foil);
      Ok((SaveCollection(d.(owned := ObjectValue(t.owned)), now), t.entry))
    case ArrayValue => Ok((SaveCollection(d, now), Some(Flip(NotOwned, foil))))
    case _ => Err(OwnedNotAnObject)
  }

  /** Why an import was refused. */
  datatype ImportError = ParseFailed | InvalidFormat

  /** `owned` passes the import check: present, truthy and of type 'object'. */
  predicate ImportShapeOk(owned: OwnedField)
  {
    owned.ArrayValue? || owned.ObjectValue?
  }

  /** A successful import: the document written to the slot, stamped by the
      save, and the document the promise resolves with, which is the parsed
      file itself (the save stamps a copy). */
  datatype Imported = Imported(stored: Document, resolved: Document)

  /** `importCollection`: parse the file text; refuse it when `owned` is
      missing or not an object; otherwise save it and resolve with the parsed
      document. A refused import saves nothing, so `Err` carries no document. */
  function ImportCollection(text: string, parse: string -> Option<Document>, now: string)
    : (r: Result<Imported, ImportError>)
    ensures parse(text) == None ==> r == Err(ParseFailed)
    ensures parse(text).Some? && !ImportShapeOk(parse(text).value.owned) ==> r == Err(InvalidFormat)
    ensures r.Ok? <==> parse(text).Some? && ImportShapeOk(parse(text).value.owned)
    ensures r.Ok? ==> r.value.resolved == parse(text).value
    ensures r.Ok? ==> r.value.stored == SaveCollection(r.value.resolved, now)
  {
    match parse(text)
    case None => Err(ParseFailed)
    case Some(d) =>
      if !ImportShapeOk(d.owned) then Err(InvalidFormat) else Ok(Imported(SaveCollection(d, now), d))
  }

  /** Exporting the stored document, its `owned` an object or an array, and
      importing the file resolves with that same document and stores the same
      ownership record with a fresh save time, as long as the JSON text
      written by `serialize` parses back to the document. */
  lemma ExportImportRoundTrip(slot: Option<string>, parse: string -> Option<Document>,
                              serialize: Document -> string, now: string)
    requires ImportShapeOk(GetCollection(slot, parse).owned)
    requires parse(serialize(GetCollection(slot, parse))) == Some(GetCollection(slot, parse))
    ensures ImportCollection(serialize(GetCollection(slot, parse)), parse, now).Ok?
    ensures ImportCollection(serialize(GetCollection(slot, parse)), parse, now).value.resolved
            == GetCollection(slot, parse)
    ensures ImportCollection(serialize(GetCollection(slot, parse)), parse, now).value.stored.owned
            == GetCollection(slot, parse).owned
  {
  }
}
