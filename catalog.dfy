/**
  The image catalog: a DynamoDB table keyed by the string attribute
  `fileName`. processImage writes items with PutCommand and updateTable
  changes them with an UpdateCommand whose expression SETs Caption,
  AddedDate and PhotographerName. The table is a class whose one field is
  the map from key to item; whether the service answers a request is a
  parameter of each call.
 */
module Catalog {
  import opened Wrappers

  /** One catalog item: its key and the three metadata attributes updateTable sets. */
  datatype Entry = Entry(
    fileName: string,
    caption: Option<string>,
    addedDate: Option<string>,
    photographerName: Option<string>)

  /** The item processImage puts: `{ fileName }` and nothing else. */
  function ImageItem(fileName: string): Entry {
    Entry(fileName, None, None, None)
  }

  /** The partition key is a string attribute, and DynamoDB refuses an empty
      string as a key value; a request with any other key fails. */
  predicate ValidKey(key: string) {
    key != ""
  }

  /** What every table state satisfies: each item sits under its own key, and that key is valid. */
  ghost predicate Consistent(items: map<string, Entry>) {
    forall key :: key in items ==> ValidKey(key) && items[key].fileName == key
  }

  /** The item an update starts from: the stored one, or a new item holding only the key. */
  function Lookup(items: map<string, Entry>, key: string): (e: Entry)
    ensures e.fileName == key || key in items
    ensures key !in items ==> e == ImageItem(key)
  {
    if key in items then items[key] else ImageItem(key)
  }

  /** The table after a PutCommand for `item`; `serviceOk` says whether the
      service would carry out a valid request. A put replaces the whole item
      stored under its key. */
  function StorePut(items: map<string, Entry>, item: Entry, serviceOk: bool): map<string, Entry> {
    if serviceOk && ValidKey(item.fileName) then items[item.fileName := item] else items
  }

  /** A carried-out put with a valid key stores the item under its key and
      adds no other key; no other item changes, and a refused put changes nothing. */
  lemma PutStoresItem(items: map<string, Entry>, item: Entry, serviceOk: bool)
    ensures var r := StorePut(items, item, serviceOk);
      r.Keys == (if serviceOk && ValidKey(item.fileName) then items.Keys + {item.fileName} else items.Keys) &&
      (serviceOk && ValidKey(item.fileName) ==> r[item.fileName] == item) &&
      (forall key :: key in items && key != item.fileName ==> r[key] == items[key]) &&
      (!(serviceOk && ValidKey(item.fileName)) ==> r == items)
  {
  }

  /** The table after the UpdateCommand `SET Caption = caption, AddedDate = date,
      PhotographerName = name` on key `key`. DynamoDB creates the item when
      the key is absent (an upsert). */
  function StoreUpdate(items: map<string, Entry>, key: string, caption: string, date: string,
                       name: string, serviceOk: bool): map<string, Entry> {
    if serviceOk && ValidKey(key) then
      items[key := Lookup(items, key).(caption := Some(caption), addedDate := Some(date),
                                       photographerName := Some(name))]
    else items
  }

  /** A carried-out update with a valid key sets the three attributes of that
      key, creating the item when absent, and adds no other key; no other item
      changes, and a refused update changes nothing. */
  lemma UpdateSetsAttributes(items: map<string, Entry>, key: string, caption: string, date: string,
                             name: string, serviceOk: bool)
    ensures var r := StoreUpdate(items, key, caption, date, name, serviceOk);
      r.Keys == (if serviceOk && ValidKey(key) then items.Keys + {key} else items.Keys) &&
      (serviceOk && ValidKey(key) ==>
         r[key].caption == Some(caption) && r[key].addedDate == Some(date) &&
         r[key].photographerName == Some(name)) &&
      (forall k :: k in items && k != key ==> r[k] == items[k]) &&
      (!(serviceOk && ValidKey(key)) ==> r == items)
  {
  }

  /** A put keeps every item under its own, valid key: the table's invariant. */
  lemma PutKeepsConsistent(items: map<string, Entry>, item: Entry, serviceOk: bool)
    requires Consistent(items)
    ensures Consistent(StorePut(items, item, serviceOk))
  {
  }

  /** So does an update. */
  lemma UpdateKeepsConsistent(items: map<string, Entry>, key: string, caption: string, date: string,
                              name: string, serviceOk: bool)
    requires Consistent(items)
    ensures Consistent(StoreUpdate(items, key, caption, date, name, serviceOk))
  {
  }

  /** A put wipes the metadata of the item it replaces: only the key is left. */
  lemma PutReplacesWholeItem(items: map<string, Entry>, fileName: string)
    requires ValidKey(fileName)
    ensures var r := StorePut(items, ImageItem(fileName), true);
      r[fileName].caption.None? && r[fileName].addedDate.None? && r[fileName].photographerName.None?
  {
  }

  /** Putting the same item again changes nothing, whether or not the second put is carried out. */
  lemma PutIdempotent(items: map<string, Entry>, item: Entry, again: bool)
    ensures var once := StorePut(items, item, true); StorePut(once, item, again) == once
  {
  }

  /** Repeating an update with the same values changes nothing, whether or not the repeat is carried out. */
  lemma UpdateIdempotent(items: map<string, Entry>, key: string, caption: string, date: string,
                         name: string, again: bool)
    ensures var once := StoreUpdate(items, key, caption, date, name, true);
      StoreUpdate(once, key, caption, date, name, again) == once
  {
  }

  /** An update of a key that is not in the table creates the item with all three attributes. */
  lemma UpdateCreatesMissingItem(items: map<string, Entry>, key: string, caption: string,
                                 date: string, name: string)
    requires ValidKey(key) && key !in items
    ensures StoreUpdate(items, key, caption, date, name, true)[key]
         == Entry(key, Some(caption), Some(date), Some(name))
  {
  }

  /** An update keeps an item's key and, for a stored item, touches nothing but the three attributes. */
  lemma UpdateKeepsKey(items: map<string, Entry>, key: string, caption: string, date: string, name: string)
    requires Consistent(items) && ValidKey(key)
    ensures var r := StoreUpdate(items, key, caption, date, name, true);
      r[key].fileName == key &&
      (key in items ==> r[key] == items[key].(caption := Some(caption), addedDate := Some(date),
                                              photographerName := Some(name)))
  {
  }

  /** Put and update do not commute: an update after the put leaves a full
      item, a put after the update leaves the bare key. */
  lemma PutAndUpdateOrder(items: map<string, Entry>, key: string, caption: string, date: string, name: string)
    requires ValidKey(key)
    ensures StoreUpdate(StorePut(items, ImageItem(key), true), key, caption, date, name, true)[key]
         == Entry(key, Some(caption), Some(date), Some(name))
    ensures StorePut(StoreUpdate(items, key, caption, date, name, true), ImageItem(key), true)[key]
         == ImageItem(key)
  {
  }

  /** The two environment variables both table handlers need. */
  datatype TableConfig = TableConfig(tableName: string, region: string)

  /** Reading DYNAMODB_TABLE and REGION when the handler's module loads: a
      variable that is unset or empty aborts the load before any event is
      handled. */
  function LoadTableConfig(tableName: Option<string>, region: Option<string>): (r: Option<TableConfig>)
    ensures r.Some? <==> tableName.Some? && tableName.value != "" && region.Some? && region.value != ""
    ensures r.Some? ==> r.value.tableName == tableName.value && r.value.region == region.value
  {
    if tableName.None? || tableName.value == "" || region.None? || region.value == "" then None
    else Some(TableConfig(tableName.value, region.value))
  }

  /** The table, as the handlers see it through the DynamoDB document client. */
  class Table {
    var items: map<string, Entry>

    ghost predicate Valid()
      reads this
    {
      Consistent(items)
    }

    constructor (initial: map<string, Entry>)
      requires Consistent(initial)
      ensures Valid() && items == initial
    {
      items := initial;
    }

    /** Sends a PutCommand; `stored` tells whether it succeeded (otherwise the send throws). */
    method Put(item: Entry, serviceOk: bool) returns (stored: bool)
      requires Valid()
      modifies this
      ensures Valid()
      ensures stored <==> serviceOk && ValidKey(item.fileName)
      ensures items == StorePut(old(items), item, serviceOk)
    {
      PutKeepsConsistent(items, item, serviceOk);
      stored := serviceOk && ValidKey(item.fileName);
      if stored {
        items := items[item.fileName := item];
      }
    }

    /** Sends the UpdateCommand that SETs the three metadata attributes of `key`. */
    method Update(key: string, caption: string, date: string, name: string, serviceOk: bool)
      returns (updated: bool)
      requires Valid()
      modifies this
      ensures Valid()
      ensures updated <==> serviceOk && ValidKey(key)
      ensures items == StoreUpdate(old(items), key, caption, date, name, serviceOk)
    {
      UpdateKeepsConsistent(items, key, caption, date, name, serviceOk);
      updated := serviceOk && ValidKey(key);
      if updated {
        var current := if key in items then items[key] else ImageItem(key);
        items := items[key := current.(caption := Some(caption), addedDate := Some(date),
                                       photographerName := Some(name))];
      }
    }
  }
}
