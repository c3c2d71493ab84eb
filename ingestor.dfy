/** The body of drawing_ingestor (drawing_ingestor.py): every tile's reply is
    unfenced, decoded, and each of its detections is normalised, validated into an
    Item and merged into the state, keeping the more confident of two detections
    under one key. */
module Ingestor {
  import opened Wrappers
  import opened Json
  import opened PidState
  import opened Tiler
  import opened Fence
  import opened Markdown
  import Strings

  /** The library behaviour the ingestor depends on, taken as given:
      json.loads, str() of a list, pydantic's parse of a float from a str, and the
      percentage format of a confidence. */
  datatype Builtins = Builtins(
    loads: string -> Loaded,
    listStr: seq<Json> -> string,
    floatStr: string -> Option<real>,
    pct: real -> string)

  /** Why one detection was skipped (the exception the inner handler catches). */
  datatype EntryError =
    | NotADict         // det["bbox"] on a value that is not a dict
    | NoBBox           // KeyError: "bbox"
    | NotFourValues    // x1, y1, x2, y2 = ... on a value that does not unpack to four
    | NotANumber       // a coordinate to which an int cannot be added
    | DuplicateStatus  // Item(**det, status=...) with "status" also in det
    | Invalid(field: string)  // pydantic rejects this field of Item

  // ---------------------------------------------------------------------------
  // Normalising one detection

  /** v + off for one unpacked coordinate: int and bool give an int, float a float,
      anything else raises. */
  function AddOffset(v: Json, off: int): (r: Result<Json, EntryError>)
  {
    match v
    case Int(i) => Ok(Int(i + off))
    case Bool(b) => Ok(Int((if b then 1 else 0) + off))
    case Float(f) => Ok(Float(f + off as real))
    case _ => Err(NotANumber)
  }

  /** The bbox rewritten to [x1 + x_off, y1 + y_off, x2 + x_off, y2 + y_off]. A
      list unpacks to its elements; a four-character string or a four-key dict
      unpacks too, but into strings, to which an int cannot be added. */
  function Translate(bbox: Json, t: Tile): (r: Result<Json, EntryError>)
  {
    match bbox
    case Arr(e) =>
      if |e| != 4 then Err(NotFourValues)
      else
        (match (AddOffset(e[0], t.xOff), AddOffset(e[1], t.yOff), AddOffset(e[2], t.xOff), AddOffset(e[3], t.yOff))
         case (Ok(a), Ok(b), Ok(c), Ok(d)) => Ok(Arr([a, b, c, d]))
         case _ => Err(NotANumber))
    case Str(s) => Err(if |s| == 4 then NotANumber else NotFourValues)
    case Obj(m) => Err(if |m| == 4 then NotANumber else NotFourValues)
    case _ => Err(NotFourValues)
  }

  /** d.get(k) is None: the key is absent or holds null. */
  predicate IsNone(v: Option<Json>)
  {
    v == None || v == Some(Null)
  }

  /** The default tag of a detection stored under key. */
  function UnknownTag(key: string): (r: string)
  {
    "unknown_" + key
  }

  /** The field defaults, applied in place in the source's order: tag, size, conf. */
  function Defaults(m: seq<(string, Json)>, key: string, b: Builtins): (r: seq<(string, Json)>)
  {
    var m1 := if IsNone(Get(m, "tag")) then Put(m, "tag", Str(UnknownTag(key))) else m;
    var m2 := if Get(m1, "size").Some? && Get(m1, "size").value.Arr?
      then Put(m1, "size", Str(b.listStr(Get(m1, "size").value.elems))) else m1;
    if IsNone(Get(m2, "conf")) then Put(m2, "conf", Float(0.5)) else m2
  }

  /** The detection after its in-place edits: bbox translated, then the defaults. */
  function Normalise(key: string, det: Json, t: Tile, b: Builtins): (r: Result<seq<(string, Json)>, EntryError>)
  {
    if !det.Obj? then Err(NotADict)
    else match Get(det.members, "bbox")
      case None => Err(NoBBox)
      case Some(bb) =>
        match Translate(bb, t)
        case Err(e) => Err(e)
        case Ok(nb) => Ok(Defaults(Put(det.members, "bbox", nb), key, b))
  }

  // ---------------------------------------------------------------------------
  // Validating into an Item (pydantic, lax mode)

  /** What Item(**det, status="INGESTED") reads from det: whether it has a
      "status" key of its own, and det.get of each field of Item. */
  datatype Fields = Fields(
    hasStatus: bool,
    tag: Option<Json>,
    kind: Option<Json>,
    size: Option<Json>,
    bbox: Option<Json>,
    conf: Option<Json>)

  function FieldsOf(m: seq<(string, Json)>): (r: Fields)
  {
    Fields(Has(m, "status"), Get(m, "tag"), Get(m, "type"), Get(m, "size"), Get(m, "bbox"), Get(m, "conf"))
  }

  /** A str field accepts only a str. */
  function StrField(v: Option<Json>): (r: Option<string>)
  {
    if v.Some? && v.value.Str? then Some(v.value.s) else None
  }

  /** An int field accepts an int, a bool, or a float with no fractional part. */
  function IntField(v: Json): (r: Option<int>)
  {
    match v
    case Int(i) => Some(i)
    case Bool(b) => Some(if b then 1 else 0)
    case Float(f) => if f.Floor as real == f then Some(f.Floor) else None
    case _ => None
  }

  /** A float field accepts an int, a bool, a float, or a str that parses as one. */
  function FloatField(v: Option<Json>, b: Builtins): (r: Option<real>)
  {
    match v
    case Some(Int(i)) => Some(i as real)
    case Some(Bool(x)) => Some(if x then 1.0 else 0.0)
    case Some(Float(f)) => Some(f)
    case Some(Str(s)) => b.floatStr(s)
    case _ => None
  }

  /** Tuple[int, int, int, int] accepts a list of exactly four int-valued elements. */
  function BBoxField(v: Option<Json>): (r: Option<BBox>)
  {
    if v.Some? && v.value.Arr? && |v.value.elems| == 4 then
      var e := v.value.elems;
      match (IntField(e[0]), IntField(e[1]), IntField(e[2]), IntField(e[3]))
      case (Some(a), Some(c), Some(d), Some(f)) => Some(BBox(a, c, d, f))
      case _ => None
    else None
  }

  /** Item(**det, status="INGESTED") on the fields read from det: a "status" key
      of det's own is a second value for that keyword; keys that are not fields
      of Item are ignored. */
  function ValidateFields(f: Fields, b: Builtins): (r: Result<Item, EntryError>)
  {
    if f.hasStatus then Err(DuplicateStatus)
    else if StrField(f.tag).None? then Err(Invalid("tag"))
    else if StrField(f.kind).None? then Err(Invalid("type"))
    else if !IsNone(f.size) && StrField(f.size).None? then Err(Invalid("size"))
    else if BBoxField(f.bbox).None? then Err(Invalid("bbox"))
    else if FloatField(f.conf, b).None? then Err(Invalid("conf"))
    else Ok(Item(
      tag := StrField(f.tag).value,
      kind := StrField(f.kind).value,
      size := if IsNone(f.size) then None else StrField(f.size),
      bbox := BBoxField(f.bbox).value,
      conf := FloatField(f.conf, b).value,
      status := Ingested))
  }

  /** One detection (key, det) of a tile's reply, as the Item the ingestor builds,
      or the reason it is skipped. */
  function ParseEntry(key: string, det: Json, t: Tile, b: Builtins): (r: Result<Item, EntryError>)
  {
    match Normalise(key, det, t, b)
    case Err(e) => Err(e)
    case Ok(m) => ValidateFields(FieldsOf(m), b)
  }

  // ---------------------------------------------------------------------------
  // What ParseEntry accepts, and what it builds

  /** A coordinate pydantic accepts as an int once the tile offset is added. */
  predicate IsCoord(v: Json)
  {
    v.Int? || v.Bool? || (v.Float? && v.f.Floor as real == v.f)
  }

  /** The integer value of a coordinate. */
  function Coord(v: Json): (r: int)
  {
    match v
    case Int(i) => i
    case Bool(b) => if b then 1 else 0
    case Float(f) => f.Floor
    case _ => 0
  }

  /** IsCoord and Coord are the int field's acceptance and value. */
  lemma CoordIsIntField(v: Json)
    ensures IsCoord(v) <==> IntField(v).Some?
    ensures IsCoord(v) ==> Coord(v) == IntField(v).value
  {
  }

  /** [x1 + x_off, y1 + y_off, x2 + x_off, y2 + y_off] as the four ints stored. */
  function Moved(bb: Json, t: Tile): (r: BBox)
    requires bb.Arr? && |bb.elems| == 4
  {
    var e := bb.elems;
    BBox(Coord(e[0]) + t.xOff, Coord(e[1]) + t.yOff, Coord(e[2]) + t.xOff, Coord(e[3]) + t.yOff)
  }

  /** A bbox that unpacks into four acceptable coordinates. */
  predicate IsCoords(bb: Json)
  {
    bb.Arr? && |bb.elems| == 4 && forall i :: 0 <= i < 4 ==> IsCoord(bb.elems[i])
  }

  /** The fields the ingestor accepts, as read from the raw reply: no "status";
      a bbox list of four int-valued coordinates; a str "type"; a tag that is a
      str, or missing or null; a size that is a str or a list, or missing or
      null; a conf that is a number or a numeric str, or missing or null. */
  predicate AcceptableFields(f: Fields, b: Builtins)
  {
    && !f.hasStatus
    && f.bbox.Some? && IsCoords(f.bbox.value)
    && StrField(f.kind).Some?
    && (IsNone(f.tag) || StrField(f.tag).Some?)
    && (IsNone(f.size) || StrField(f.size).Some? || f.size.value.Arr?)
    && (IsNone(f.conf) || FloatField(f.conf, b).Some?)
  }

  predicate Acceptable(det: Json, b: Builtins)
  {
    det.Obj? && AcceptableFields(FieldsOf(det.members), b)
  }

  /** The fields after translation and defaults, in terms of the raw ones. */
  function NormalFields(f: Fields, key: string, nb: Json, b: Builtins): (r: Fields)
  {
    Fields(
      f.hasStatus,
      if IsNone(f.tag) then Some(Str(UnknownTag(key))) else f.tag,
      f.kind,
      if f.size.Some? && f.size.value.Arr? then Some(Str(b.listStr(f.size.value.elems))) else f.size,
      Some(nb),
      if IsNone(f.conf) then Some(Float(0.5)) else f.conf)
  }

  /** (f + off).Floor == f.Floor + off */
  lemma FloorShift(f: real, off: int)
    ensures (f + off as real).Floor == f.Floor + off
  {
    var n := f.Floor;
    assert (n + off) as real <= f + off as real < (n + off) as real + 1.0;
  }

  /** Adding an offset keeps a coordinate acceptable, and only an acceptable one,
      and shifts its value by the offset. */
  lemma AddOffsetCoord(v: Json, off: int)
    ensures AddOffset(v, off).Ok? && IntField(AddOffset(v, off).value).Some? <==> IsCoord(v)
    ensures IsCoord(v) ==> IntField(AddOffset(v, off).value) == Some(Coord(v) + off)
  {
    if v.Float? {
      FloorShift(v.f, off);
      var g := v.f + off as real;
      if v.f.Floor as real == v.f {
        assert g.Floor as real == g;
      } else {
        assert g.Floor as real != g;
      }
    }
  }

  /** The translated bbox, read back as pydantic reads it. */
  lemma TranslateBBox(bb: Json, t: Tile)
    ensures (Translate(bb, t).Ok? && BBoxField(Some(Translate(bb, t).value)).Some?) <==> IsCoords(bb)
    ensures IsCoords(bb) ==>
      Translate(bb, t).Ok? && BBoxField(Some(Translate(bb, t).value)) == Some(Moved(bb, t))
  {
    if bb.Arr? && |bb.elems| == 4 {
      var e := bb.elems;
      AddOffsetCoord(e[0], t.xOff);
      AddOffsetCoord(e[1], t.yOff);
      AddOffsetCoord(e[2], t.xOff);
      AddOffsetCoord(e[3], t.yOff);
    }
  }

  /** d.get(k) after the defaults: tag, size and conf as defaulted, every other
      key as before. */
  lemma DefaultsGet(m: seq<(string, Json)>, key: string, b: Builtins, k: string)
    ensures var f := NormalFields(FieldsOf(m), key, Null, b);
      Get(Defaults(m, key, b), k) ==
        if k == "tag" then f.tag else if k == "size" then f.size
        else if k == "conf" then f.conf else Get(m, k)
  {
    var m1 := if IsNone(Get(m, "tag")) then Put(m, "tag", Str(UnknownTag(key))) else m;
    if IsNone(Get(m, "tag")) {
      GetPut(m, "tag", Str(UnknownTag(key)), k);
      GetPut(m, "tag", Str(UnknownTag(key)), "size");
      GetPut(m, "tag", Str(UnknownTag(key)), "conf");
    }
    var m2 := if Get(m1, "size").Some? && Get(m1, "size").value.Arr?
      then Put(m1, "size", Str(b.listStr(Get(m1, "size").value.elems))) else m1;
    if Get(m1, "size").Some? && Get(m1, "size").value.Arr? {
      GetPut(m1, "size", Str(b.listStr(Get(m1, "size").value.elems)), k);
      GetPut(m1, "size", Str(b.listStr(Get(m1, "size").value.elems)), "conf");
    }
    if IsNone(Get(m2, "conf")) {
      GetPut(m2, "conf", Float(0.5), k);
    }
  }

  /** Has is d.get(k) not being None. */
  lemma HasGet(m: seq<(string, Json)>, k: string)
    ensures Has(m, k) <==> Get(m, k).Some?
  {
  }

  /** The fields of the normalised detection, in terms of the raw ones. */
  lemma NormalisedFields(key: string, det: Json, t: Tile, b: Builtins)
    requires Normalise(key, det, t, b).Ok?
    ensures det.Obj? && Get(det.members, "bbox").Some? && Translate(Get(det.members, "bbox").value, t).Ok?
    ensures FieldsOf(Normalise(key, det, t, b).value) ==
      NormalFields(FieldsOf(det.members), key, Translate(Get(det.members, "bbox").value, t).value, b)
  {
    var m := det.members;
    var nb := Translate(Get(m, "bbox").value, t).value;
    var p := Put(m, "bbox", nb);
    var n := Defaults(p, key, b);
    DefaultsGet(p, key, b, "status");
    DefaultsGet(p, key, b, "type");
    DefaultsGet(p, key, b, "bbox");
    DefaultsGet(p, key, b, "tag");
    DefaultsGet(p, key, b, "size");
    DefaultsGet(p, key, b, "conf");
    GetPut(m, "bbox", nb, "status");
    GetPut(m, "bbox", nb, "type");
    GetPut(m, "bbox", nb, "bbox");
    GetPut(m, "bbox", nb, "tag");
    GetPut(m, "bbox", nb, "size");
    GetPut(m, "bbox", nb, "conf");
    HasGet(n, "status");
    HasGet(m, "status");
  }

  /** Validation after normalisation, on fields alone. */
  lemma {:induction false} FieldsAccepted(f: Fields, key: string, bb: Json, t: Tile, b: Builtins)
    requires Translate(bb, t).Ok?
    ensures ValidateFields(NormalFields(f, key, Translate(bb, t).value, b), b).Ok? <==>
      AcceptableFields(f.(bbox := Some(bb)), b)
  {
    TranslateBBox(bb, t);
  }

  /** A detection yields an Item exactly when it is Acceptable. */
  lemma {:induction false} EntryAccepted(key: string, det: Json, t: Tile, b: Builtins)
    ensures ParseEntry(key, det, t, b).Ok? <==> Acceptable(det, b)
  {
    if det.Obj? && Get(det.members, "bbox").Some? {
      var bb := Get(det.members, "bbox").value;
      TranslateBBox(bb, t);
      if Translate(bb, t).Ok? {
        NormalisedFields(key, det, t, b);
        FieldsAccepted(FieldsOf(det.members), key, bb, t, b);
      }
    }
  }

  /** The Item built from accepted fields. */
  lemma {:induction false} FieldsItem(f: Fields, key: string, bb: Json, t: Tile, b: Builtins)
    requires Translate(bb, t).Ok? && AcceptableFields(f.(bbox := Some(bb)), b)
    ensures var r := ValidateFields(NormalFields(f, key, Translate(bb, t).value, b), b);
      && r.Ok?
      && r.value.bbox == Moved(bb, t)
      && r.value.tag == (if IsNone(f.tag) then UnknownTag(key) else f.tag.value.s)
      && f.kind == Some(Str(r.value.kind))
      && r.value.size == (if IsNone(f.size) then None
                     else if f.size.value.Arr? then Some(b.listStr(f.size.value.elems))
                     else Some(f.size.value.s))
      && r.value.conf == (if IsNone(f.conf) then 0.5 else FloatField(f.conf, b).value)
      && r.value.status == Ingested
  {
    TranslateBBox(bb, t);
  }

  /** What the ingestor stores for an accepted detection: the bbox moved by the
      tile offset, the tag / size / conf defaults, and status "INGESTED". */
  lemma {:induction false} EntryFields(key: string, det: Json, t: Tile, b: Builtins, it: Item)
    requires ParseEntry(key, det, t, b) == Ok(it)
    ensures Acceptable(det, b)
    ensures var f := FieldsOf(det.members);
      && it.bbox == Moved(f.bbox.value, t)
      && it.tag == (if IsNone(f.tag) then UnknownTag(key) else f.tag.value.s)
      && f.kind == Some(Str(it.kind))
      && it.size == (if IsNone(f.size) then None
                     else if f.size.value.Arr? then Some(b.listStr(f.size.value.elems))
                     else Some(f.size.value.s))
      && it.conf == (if IsNone(f.conf) then 0.5 else FloatField(f.conf, b).value)
      && it.status == Ingested
  {
    EntryAccepted(key, det, t, b);
    var f := FieldsOf(det.members);
    var bb := f.bbox.value;
    assert Translate(bb, t).Ok? && ParseEntry(key, det, t, b) ==
        ValidateFields(NormalFields(f, key, Translate(bb, t).value, b), b) by {
      NormalisedFields(key, det, t, b);
    }
    assert f.(bbox := Some(bb)) == f;
    FieldsItem(f, key, bb, t, b);
  }

  // ---------------------------------------------------------------------------
  // Merging into the items

  /** if tag not in items or item.conf > items[tag].conf: items[tag] = item */
  function MergeItem(items: ItemDict, key: string, it: Item): (r: ItemDict)
    ensures items.Valid() ==> r.Valid()
  {
    if key !in items.entries || it.conf > items.entries[key].conf then items.Set(key, it) else items
  }

  /** The merge rule: an absent key is inserted; a present one is replaced only by
      a strictly more confident item; no other key changes; keys are never removed
      and a stored conf never goes down. */
  lemma MergeRule(items: ItemDict, key: string, it: Item)
    ensures var r := MergeItem(items, key, it);
      && key in r.entries
      && r.entries[key] == (if key !in items.entries || it.conf > items.entries[key].conf then it else items.entries[key])
      && (forall k :: k != key ==> (k in r.entries <==> k in items.entries))
      && (forall k :: k != key && k in items.entries ==> r.entries[k] == items.entries[k])
      && (forall k :: k in items.entries ==> k in r.entries && r.entries[k].conf >= items.entries[k].conf)
  {
  }

  /** No key is lost, and no stored confidence goes down. */
  predicate Grows(items: ItemDict, r: ItemDict)
  {
    forall k :: k in items.entries ==> k in r.entries && r.entries[k].conf >= items.entries[k].conf
  }

  /** One detection (key, det) of a reply: merged when it yields an Item, and
      skipped when it raises. */
  function MergeDetection(items: ItemDict, key: string, det: Json, t: Tile, b: Builtins): (r: ItemDict)
    ensures items.Valid() ==> r.Valid()
  {
    var p := ParseEntry(key, det, t, b);
    if p.Ok? then MergeItem(items, key, p.value) else items
  }

  /** The detections of one decoded reply, merged one after the other. */
  function MergeEntries(items: ItemDict, members: seq<(string, Json)>, t: Tile, b: Builtins): (r: ItemDict)
    ensures items.Valid() ==> r.Valid()
    ensures Grows(items, r)
    decreases |members|
  {
    if |members| == 0 then items
    else MergeEntries(MergeDetection(items, members[0].0, members[0].1, t, b), members[1..], t, b)
  }

  /** What one tile contributes: a reply that does not decode is skipped, a dict is
      merged, and any other JSON value makes `.items()` raise out of the run. */
  datatype TileOutcome = Skipped | Merged(items: ItemDict) | Raised

  function ProcessTile(items: ItemDict, t: Tile, reply: string, b: Builtins): (r: TileOutcome)
  {
    match b.loads(StripFence(reply))
    case DecodeError => Skipped
    case Decoded(Obj(members)) => Merged(MergeEntries(items, members, t, b))
    case Decoded(_) => Raised
  }

  /** The items after the tiles in order, and whether an exception escaped (then
      the items are those merged before it). */
  datatype Run = Run(items: ItemDict, escaped: bool)

  function RunTiles(items: ItemDict, tiles: seq<Tile>, replies: seq<string>, b: Builtins): (r: Run)
    requires |tiles| == |replies|
    ensures items.Valid() ==> r.items.Valid()
    ensures Grows(items, r.items)
    decreases |tiles|
  {
    if |tiles| == 0 then Run(items, false)
    else match ProcessTile(items, tiles[0], replies[0], b)
      case Skipped => RunTiles(items, tiles[1..], replies[1..], b)
      case Merged(next) => RunTiles(next, tiles[1..], replies[1..], b)
      case Raised => Run(items, true)
  }

  // ---------------------------------------------------------------------------
  // Properties of the merge

  /** The keys of the detections in members that yield an Item. */
  function AcceptedKeys(members: seq<(string, Json)>, t: Tile, b: Builtins): (r: set<string>)
  {
    set i | 0 <= i < |members| && ParseEntry(members[i].0, members[i].1, t, b).Ok? :: members[i].0
  }

  lemma AcceptedKeysCons(members: seq<(string, Json)>, t: Tile, b: Builtins)
    requires |members| > 0
    ensures AcceptedKeys(members, t, b) ==
      (if ParseEntry(members[0].0, members[0].1, t, b).Ok? then {members[0].0} else {})
      + AcceptedKeys(members[1..], t, b)
  {
    var rest := members[1..];
    forall k | k in AcceptedKeys(rest, t, b) ensures k in AcceptedKeys(members, t, b) {
      var i :| 0 <= i < |rest| && ParseEntry(rest[i].0, rest[i].1, t, b).Ok? && rest[i].0 == k;
      assert members[i + 1] == rest[i];
    }
    forall k | k in AcceptedKeys(members, t, b)
      ensures k in AcceptedKeys(rest, t, b) || (k == members[0].0 && ParseEntry(members[0].0, members[0].1, t, b).Ok?)
    {
      var i :| 0 <= i < |members| && ParseEntry(members[i].0, members[i].1, t, b).Ok? && members[i].0 == k;
      if i > 0 {
        assert rest[i - 1] == members[i];
      }
    }
  }

  /** A reply adds exactly the keys of its accepted detections; no key is lost. */
  lemma {:induction false} MergeKeys(items: ItemDict, members: seq<(string, Json)>, t: Tile, b: Builtins)
    ensures MergeEntries(items, members, t, b).entries.Keys == items.entries.Keys + AcceptedKeys(members, t, b)
    decreases |members|
  {
    if |members| > 0 {
      AcceptedKeysCons(members, t, b);
      var next := MergeDetection(items, members[0].0, members[0].1, t, b);
      MergeKeys(next, members[1..], t, b);
    }
  }

  /** After a reply, the item under a key is at least as confident as every
      accepted detection of that key in the reply. */
  lemma {:induction false} MergeKeepsBest(items: ItemDict, members: seq<(string, Json)>, t: Tile, b: Builtins, i: nat)
    requires i < |members| && ParseEntry(members[i].0, members[i].1, t, b).Ok?
    ensures var r := MergeEntries(items, members, t, b);
      members[i].0 in r.entries && r.entries[members[i].0].conf >= ParseEntry(members[i].0, members[i].1, t, b).value.conf
    decreases |members|
  {
    var p := ParseEntry(members[0].0, members[0].1, t, b);
    var next := MergeDetection(items, members[0].0, members[0].1, t, b);
    if i == 0 {
      MergeRule(items, members[0].0, p.value);
    } else {
      assert members[1..][i - 1] == members[i];
      MergeKeepsBest(next, members[1..], t, b, i - 1);
    }
  }

  /** Every item a reply leaves under a key was either there before, or is the
      Item of one of the reply's detections of that key. */
  lemma {:induction false} MergeSource(items: ItemDict, members: seq<(string, Json)>, t: Tile, b: Builtins, k: string)
    requires k in MergeEntries(items, members, t, b).entries
    ensures var v := MergeEntries(items, members, t, b).entries[k];
      (k in items.entries && v == items.entries[k])
      || exists i :: 0 <= i < |members| && members[i].0 == k && ParseEntry(members[i].0, members[i].1, t, b) == Ok(v)
    decreases |members|
  {
    if |members| > 0 {
      var p := ParseEntry(members[0].0, members[0].1, t, b);
      var next := MergeDetection(items, members[0].0, members[0].1, t, b);
      MergeSource(next, members[1..], t, b, k);
      var v := MergeEntries(items, members, t, b).entries[k];
      if exists i :: 0 <= i < |members[1..]| && members[1..][i].0 == k
          && ParseEntry(members[1..][i].0, members[1..][i].1, t, b) == Ok(v) {
        var i :| 0 <= i < |members[1..]| && members[1..][i].0 == k
          && ParseEntry(members[1..][i].0, members[1..][i].1, t, b) == Ok(v);
        assert members[i + 1] == members[1..][i];
      } else if p.Ok? && k == members[0].0 && !(k in items.entries && v == items.entries[k]) {
        MergeRule(items, members[0].0, p.value);
        assert ParseEntry(members[0].0, members[0].1, t, b) == Ok(v);
      }
    }
  }

  /** A detection that is skipped changes nothing: the reply merges as if it were
      not there, and the detections after it are still merged. */
  lemma {:induction false} SkipBadEntry(items: ItemDict, members: seq<(string, Json)>, t: Tile, b: Builtins, i: nat)
    requires i < |members| && ParseEntry(members[i].0, members[i].1, t, b).Err?
    ensures MergeEntries(items, members, t, b) == MergeEntries(items, members[..i] + members[i + 1..], t, b)
    decreases |members|
  {
    var without := members[..i] + members[i + 1..];
    if i == 0 {
      assert without == members[1..];
    } else {
      var p := ParseEntry(members[0].0, members[0].1, t, b);
      var next := MergeDetection(items, members[0].0, members[0].1, t, b);
      assert members[1..][i - 1] == members[i];
      SkipBadEntry(next, members[1..], t, b, i - 1);
      assert without[0] == members[0];
      assert without[1..] == members[1..][..i - 1] + members[1..][i..];
    }
  }

  /** Every stored item has status "INGESTED". */
  predicate AllIngested(items: ItemDict)
  {
    forall k :: k in items.entries ==> items.entries[k].status == Ingested
  }

  lemma {:induction false} MergeIngested(items: ItemDict, members: seq<(string, Json)>, t: Tile, b: Builtins)
    requires AllIngested(items)
    ensures AllIngested(MergeEntries(items, members, t, b))
    decreases |members|
  {
    if |members| > 0 {
      var p := ParseEntry(members[0].0, members[0].1, t, b);
      var next := MergeDetection(items, members[0].0, members[0].1, t, b);
      assert AllIngested(next) by {
        if p.Ok? {
          assert p.value.status == Ingested by {
            EntryFields(members[0].0, members[0].1, t, b, p.value);
          }
          MergeRule(items, members[0].0, p.value);
        }
      }
      MergeIngested(next, members[1..], t, b);
    }
  }

  /** A run keeps every stored item at status "INGESTED". */
  lemma {:induction false} RunIngested(items: ItemDict, tiles: seq<Tile>, replies: seq<string>, b: Builtins)
    requires |tiles| == |replies| && AllIngested(items)
    ensures AllIngested(RunTiles(items, tiles, replies, b).items)
    decreases |tiles|
  {
    if |tiles| > 0 {
      var loaded := b.loads(StripFence(replies[0]));
      if loaded.Decoded? && loaded.value.Obj? {
        MergeIngested(items, loaded.value.members, tiles[0], b);
        RunIngested(MergeEntries(items, loaded.value.members, tiles[0], b), tiles[1..], replies[1..], b);
      } else if loaded.DecodeError? {
        RunIngested(items, tiles[1..], replies[1..], b);
      }
    }
  }

  /** Replies none of which is valid JSON add nothing, and the run completes. */
  lemma {:induction false} UndecodableReplies(items: ItemDict, tiles: seq<Tile>, replies: seq<string>, b: Builtins)
    requires |tiles| == |replies|
    requires forall i :: 0 <= i < |replies| ==> b.loads(StripFence(replies[i])) == DecodeError
    ensures RunTiles(items, tiles, replies, b) == Run(items, false)
    decreases |tiles|
  {
    if |tiles| > 0 {
      assert b.loads(StripFence(replies[0])) == DecodeError;
      UndecodableReplies(items, tiles[1..], replies[1..], b);
    }
  }

  /** The reply decodes to a JSON value that is not an object. */
  predicate NotADictReply(reply: string, b: Builtins)
  {
    b.loads(StripFence(reply)).Decoded? && !b.loads(StripFence(reply)).value.Obj?
  }

  /** An exception escapes the run exactly when some reply decodes to a JSON value
      that is not an object. */
  lemma {:induction false} EscapesIff(items: ItemDict, tiles: seq<Tile>, replies: seq<string>, b: Builtins)
    requires |tiles| == |replies|
    ensures RunTiles(items, tiles, replies, b).escaped <==>
      exists i :: 0 <= i < |replies| && NotADictReply(replies[i], b)
    decreases |tiles|
  {
    if |tiles| > 0 {
      var next := match ProcessTile(items, tiles[0], replies[0], b)
        case Merged(n) => n
        case _ => items;
      EscapesIff(next, tiles[1..], replies[1..], b);
      if exists i :: 0 <= i < |replies[1..]| && NotADictReply(replies[1..][i], b) {
        var i :| 0 <= i < |replies[1..]| && NotADictReply(replies[1..][i], b);
        assert replies[i + 1] == replies[1..][i];
      }
      if exists i :: 0 <= i < |replies| && NotADictReply(replies[i], b) {
        var i :| 0 <= i < |replies| && NotADictReply(replies[i], b);
        if i > 0 {
          assert replies[1..][i - 1] == replies[i];
        }
      }
    }
  }

  // ---------------------------------------------------------------------------
  // Worked cases

  /** A detection at tile-local [10, 20, 30, 40] in the tile at (100, 50) is stored
      at [110, 70, 130, 90]. */
  lemma TranslateExample()
    ensures Translate(Arr([Int(10), Int(20), Int(30), Int(40)]), Tile(100, 50, 1300, 1250))
      == Ok(Arr([Int(110), Int(70), Int(130), Int(90)]))
  {
  }

  /** Of two detections of one key, 0.8 then 0.7 keeps the first and 0.6 then 0.95
      keeps the second; equal confidences keep the first. */
  lemma TieBreakExample(key: string, a: Item, c: Item)
    ensures var one := MergeItem(EmptyDict, key, a.(conf := 0.8));
      MergeItem(one, key, c.(conf := 0.7)).entries[key] == a.(conf := 0.8)
    ensures var one := MergeItem(EmptyDict, key, a.(conf := 0.6));
      MergeItem(one, key, c.(conf := 0.95)).entries[key] == c.(conf := 0.95)
    ensures var one := MergeItem(EmptyDict, key, a);
      MergeItem(one, key, c.(conf := a.conf)).entries[key] == a
  {
  }

  /** The detection in the fenced reply of the ingestor's tests. */
  function FixtureDet(): (r: Json)
  {
    Obj([("tag", Str("PIT-102")), ("type", Str("PT")), ("size", Str("2")),
         ("bbox", Arr([Int(10), Int(20), Int(30), Int(40)])), ("conf", Float(0.95))])
  }

  function FixtureItem(): (r: Item)
  {
    Item("PIT-102", "PT", Some("2"), BBox(10, 20, 30, 40), 0.95, Ingested)
  }

  function FixtureFields(): (r: Fields)
  {
    Fields(false, Some(Str("PIT-102")), Some(Str("PT")), Some(Str("2")),
      Some(Arr([Int(10), Int(20), Int(30), Int(40)])), Some(Float(0.95)))
  }

  lemma FixtureRead()
    ensures FieldsOf(FixtureDet().members) == FixtureFields()
  {
    var bb := Arr([Int(10), Int(20), Int(30), Int(40)]);
    var m5: seq<(string, Json)> := [("conf", Float(0.95))];
    var m4 := [("bbox", bb)] + m5;
    var m3 := [("size", Str("2"))] + m4;
    var m2 := [("type", Str("PT"))] + m3;
    var m := [("tag", Str("PIT-102"))] + m2;
    assert FixtureDet().members == m;
    assert Get(m, "conf") == Some(Float(0.95)) by {
      GetCons("tag", Str("PIT-102"), m2, "conf");
      GetCons("type", Str("PT"), m3, "conf");
      GetCons("size", Str("2"), m4, "conf");
      GetCons("bbox", bb, m5, "conf");
    }
    assert Get(m, "bbox") == Some(bb) by {
      GetCons("tag", Str("PIT-102"), m2, "bbox");
      GetCons("type", Str("PT"), m3, "bbox");
      GetCons("size", Str("2"), m4, "bbox");
    }
    assert Get(m, "size") == Some(Str("2")) by {
      GetCons("tag", Str("PIT-102"), m2, "size");
      GetCons("type", Str("PT"), m3, "size");
    }
    assert Get(m, "type") == Some(Str("PT")) by {
      GetCons("tag", Str("PIT-102"), m2, "type");
    }
    assert Get(m, "tag") == Some(Str("PIT-102")) by {
      GetCons("tag", Str("PIT-102"), m2, "tag");
    }
    assert !Has(m, "status") by {
      GetCons("tag", Str("PIT-102"), m2, "status");
      GetCons("type", Str("PT"), m3, "status");
      GetCons("size", Str("2"), m4, "status");
      GetCons("bbox", bb, m5, "status");
      HasGet(m, "status");
    }
  }

  lemma FixtureTranslate(t: Tile)
    requires t.xOff == 0 && t.yOff == 0
    ensures Translate(Arr([Int(10), Int(20), Int(30), Int(40)]), t) == Ok(Arr([Int(10), Int(20), Int(30), Int(40)]))
  {
  }

  lemma FixtureValid(b: Builtins)
    ensures ValidateFields(FixtureFields(), b) == Ok(FixtureItem())
  {
  }

  /** In a tile at the origin that detection becomes the Item with the same fields
      and status "INGESTED". */
  lemma FixtureEntry(t: Tile, b: Builtins)
    requires t.xOff == 0 && t.yOff == 0
    ensures ParseEntry("PIT-102", FixtureDet(), t, b) == Ok(FixtureItem())
  {
    var bb := Arr([Int(10), Int(20), Int(30), Int(40)]);
    FixtureRead();
    FixtureTranslate(t);
    UnmovedEntry("PIT-102", FixtureDet(), t, b, FixtureFields());
    assert NormalFields(FixtureFields(), "PIT-102", bb, b) == FixtureFields();
    FixtureValid(b);
  }

  /** A detection whose bbox the tile leaves where it is validates on its own
      fields with the defaults applied. */
  lemma UnmovedEntry(key: string, det: Json, t: Tile, b: Builtins, f: Fields)
    requires det.Obj? && FieldsOf(det.members) == f && f.bbox.Some?
    requires Translate(f.bbox.value, t) == Ok(f.bbox.value)
    ensures ParseEntry(key, det, t, b) == ValidateFields(NormalFields(f, key, f.bbox.value, b), b)
  {
    assert Normalise(key, det, t, b).Ok?;
    NormalisedFields(key, det, t, b);
  }

  /** A reply with a single accepted detection merges just that Item. */
  lemma MergeOne(items: ItemDict, key: string, det: Json, t: Tile, b: Builtins, it: Item)
    requires ParseEntry(key, det, t, b) == Ok(it)
    ensures MergeEntries(items, [(key, det)], t, b) == MergeItem(items, key, it)
  {
    assert [(key, det)][1..] == [];
  }

  /** A single tile whose reply decodes to an object merges that object's
      detections, and the run completes. */
  lemma RunOne(items: ItemDict, t: Tile, reply: string, b: Builtins, members: seq<(string, Json)>)
    requires b.loads(StripFence(reply)) == Decoded(Obj(members))
    ensures RunTiles(items, [t], [reply], b) == Run(MergeEntries(items, members, t, b), false)
  {
    assert [t][1..] == [] && [reply][1..] == [];
  }

  /** The JSON line of the fenced reply in the ingestor's tests: an object's
      braces around its one member. */
  const FixtureJson: string :=
    "{" + "\"PIT-102\": {\"tag\":\"PIT-102\",\"type\":\"PT\",\"size\":\"2\",\"bbox\":[10,20,30,40],\"conf\":0.95}" + "}"

  /** That line fenced as the test's reply: "```json", a line break, the JSON, a
      line break, "```". */
  const FixtureReply: string := JsonTicks + "\n" + FixtureJson + "\n" + Ticks

  /** A JSON line fenced on lines of its own is handed to json.loads as it is. */
  lemma JsonLineFenced(line: string)
    requires |line| > 0 && !Strings.IsSpace(line[0]) && !Strings.IsSpace(line[|line| - 1])
    ensures StripFence(JsonTicks + "\n" + line + "\n" + Ticks) == line
  {
    var body := "\n" + line + "\n";
    assert JsonTicks + "\n" + line + "\n" + Ticks == JsonTicks + body + Ticks;
    JsonFenced(body);
    assert body == ['\n'] + line + ['\n'];
    Strings.StripFramed('\n', line, '\n');
  }

  /** Unfencing the test's reply gives back its JSON line. */
  lemma FixtureUnfenced()
    ensures StripFence(FixtureReply) == FixtureJson
  {
    var line := FixtureJson;
    assert line[0] == '{' && line[|line| - 1] == '}';
    JsonLineFenced(line);
  }

  /** The fenced reply of the ingestor's tests, in a tile at the origin, stores the
      Item of its one detection under its key, and the run completes; only the
      decoding of the JSON line is taken as given. */
  lemma FencedReplyExample(b: Builtins, t: Tile)
    requires t.xOff == 0 && t.yOff == 0
    requires b.loads(FixtureJson) == Decoded(Obj([("PIT-102", FixtureDet())]))
    ensures RunTiles(EmptyDict, [t], [FixtureReply], b) == Run(ItemDict(["PIT-102"], map["PIT-102" := FixtureItem()]), false)
  {
    FixtureUnfenced();
    FixtureEntry(t, b);
    MergeOne(EmptyDict, "PIT-102", FixtureDet(), t, b, FixtureItem());
    RunOne(EmptyDict, t, FixtureReply, b, [("PIT-102", FixtureDet())]);
  }

  /** The loop over json_data.items(): each detection is parsed and, if it is
      accepted and wins the merge rule, stored in state.items. */
  method MergeReply(state: State, members: seq<(string, Json)>, t: Tile, b: Builtins)
    requires state.Valid()
    modifies state
    ensures state.Valid()
    ensures state.items == MergeEntries(old(state.items), members, t, b)
    ensures state.markdown == old(state.markdown) && state.pendingQuestions == old(state.pendingQuestions)
  {
    var j := 0;
    while j < |members|
      invariant 0 <= j <= |members|
      invariant state.Valid()
      invariant state.markdown == old(state.markdown) && state.pendingQuestions == old(state.pendingQuestions)
      invariant MergeEntries(old(state.items), members, t, b) == MergeEntries(state.items, members[j..], t, b)
    {
      assert members[j..][1..] == members[j + 1..];
      var key := members[j].0;
      var parsed := ParseEntry(key, members[j].1, t, b);
      if parsed.Ok? {
        var item := parsed.value;
        if key !in state.items.entries || item.conf > state.items.entries[key].conf {
          state.items := state.items.Set(key, item);
        }
      }
      j := j + 1;
    }
  }

  /** Tile i of RunTiles, by what its reply decodes to: undecodable is skipped,
      an object is merged, any other value ends the run with an escape. */
  lemma TileStep(items: ItemDict, tiles: seq<Tile>, replies: seq<string>, b: Builtins, i: nat)
    requires |tiles| == |replies| && i < |tiles|
    ensures var loaded := b.loads(StripFence(replies[i]));
      && (loaded.DecodeError? ==>
            RunTiles(items, tiles[i..], replies[i..], b) == RunTiles(items, tiles[i + 1..], replies[i + 1..], b))
      && (loaded.Decoded? && loaded.value.Obj? ==>
            RunTiles(items, tiles[i..], replies[i..], b)
            == RunTiles(MergeEntries(items, loaded.value.members, tiles[i], b), tiles[i + 1..], replies[i + 1..], b))
      && (loaded.Decoded? && !loaded.value.Obj? ==> RunTiles(items, tiles[i..], replies[i..], b) == Run(items, true))
  {
    assert tiles[i..][0] == tiles[i] && replies[i..][0] == replies[i];
    assert tiles[i..][1..] == tiles[i + 1..] && replies[i..][1..] == replies[i + 1..];
  }

  /** drawing_ingestor: slices the page, merges every tile's reply into
      state.items in tile order and, when no exception escapes, sets
      state.markdown to the rendered table. */
  method DrawingIngestor(state: State, width: nat, height: nat, replies: seq<string>, b: Builtins)
    returns (escaped: bool)
    requires state.Valid()
    requires |replies| == |Grid(width, height, TilePx, DefaultStride)|
    modifies state
    ensures state.Valid()
    ensures var run := RunTiles(old(state.items), Grid(width, height, TilePx, DefaultStride), replies, b);
      state.items == run.items && escaped == run.escaped
    ensures state.markdown == if escaped then old(state.markdown) else RenderMd(state.items, b.pct)
    ensures state.pendingQuestions == old(state.pendingQuestions)
  {
    var tiles := SliceImage(width, height, TilePx, DefaultStride);
    escaped := false;
    var i := 0;
    while i < |tiles| && !escaped
      invariant 0 <= i <= |tiles|
      invariant state.Valid()
      invariant state.markdown == old(state.markdown) && state.pendingQuestions == old(state.pendingQuestions)
      invariant RunTiles(old(state.items), tiles, replies, b) ==
        if escaped then Run(state.items, true) else RunTiles(state.items, tiles[i..], replies[i..], b)
    {
      TileStep(state.items, tiles, replies, b, i);
      var loaded := b.loads(StripFence(replies[i]));
      if loaded.Decoded? {
        if loaded.value.Obj? {
          MergeReply(state, loaded.value.members, tiles[i], b);
        } else {
          escaped := true;
        }
      }
      i := i + 1;
    }
    if !escaped {
      state.markdown := RenderMd(state.items, b.pct);
    }
  }
}
