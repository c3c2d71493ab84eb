/** The records of the extraction (state.py): one extracted Item, the dict of
    items keyed by tag, and the run's State. */
module PidState {
  import opened Wrappers

  const Ingested: string := "INGESTED"

  /** Bounding box (x1, y1, x2, y2): exactly four integers. */
  datatype BBox = BBox(x1: int, y1: int, x2: int, y2: int)

  /** One extracted part. `kind` is the field the source calls `type`; size and
      status have the defaults of the source's field declarations. */
  datatype Item = Item(
    tag: string,
    kind: string,
    size: Option<string> := None,
    bbox: BBox,
    conf: real,
    status: string := Ingested)

  /** A new Item left to its defaults has status "INGESTED" and no size. */
  lemma ItemDefaults(tag: string, kind: string, bbox: BBox, conf: real)
    ensures var it := Item(tag := tag, kind := kind, bbox := bbox, conf := conf);
      it.status == "INGESTED" && it.size == None
      && it.tag == tag && it.kind == kind && it.bbox == bbox && it.conf == conf
  {
  }

  /** No key occurs twice. */
  predicate Distinct(keys: seq<string>)
  {
    forall i, j :: 0 <= i < j < |keys| ==> keys[i] != keys[j]
  }

  /** A Python dict from key to Item: its keys in insertion order and the
      mapping itself. */
  datatype ItemDict = ItemDict(keys: seq<string>, entries: map<string, Item>) {

    /** The keys list each key of the mapping exactly once. */
    predicate Valid()
    {
      Distinct(keys) && entries.Keys == set k | k in keys
    }

    /** d[k] = v: an existing key keeps its place and gets the whole new item,
        a new key goes last; no other key changes. */
    function Set(k: string, v: Item): (d: ItemDict)
      ensures Valid() ==> d.Valid()
      ensures k in d.entries && d.entries[k] == v
      ensures forall k' :: k' != k ==> (k' in d.entries <==> k' in entries)
      ensures forall k' :: k' != k && k' in entries ==> d.entries[k'] == entries[k']
      ensures d.keys == if k in entries then keys else keys + [k]
    {
      ItemDict(if k in entries then keys else keys + [k], entries[k := v])
    }

    /** d.values(), in insertion order. */
    function Values(): (vs: seq<Item>)
      requires Valid()
      ensures |vs| == |keys|
      ensures forall i :: 0 <= i < |keys| ==> vs[i] == entries[keys[i]]
    {
      seq(|keys|, i requires 0 <= i < |keys| => entries[keys[i]])
    }
  }

  const EmptyDict: ItemDict := ItemDict([], map[])

  /** The application state of one run. */
  class State {
    var items: ItemDict
    var markdown: string
    var pendingQuestions: seq<string>

    ghost predicate Valid()
      reads this
    {
      items.Valid()
    }

    /** State(): no items, no markdown, no pending questions. */
    constructor()
      ensures Valid()
      ensures items == EmptyDict && markdown == "" && pendingQuestions == []
    {
      items := EmptyDict;
      markdown := "";
      pendingQuestions := [];
    }
  }
}
