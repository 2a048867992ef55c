/** BLE advertising payloads: the setters that build them and the parser that reads them. */
module Advertising {
  import opened Machine
  import opened Uuid

  /** ESP_BLE_ADV_DATA_LEN_MAX */
  const MAX: nat := 31

  /** One call of a setter of BLEAdvertisementData. */
  datatype Ad =
    | Appearance(appearance: uint16)
    | CompleteServices(services: UUID)
    | PartialServices(services: UUID)
    | Flags(flags: byte)
    | ManufacturerData(data: seq<byte>)
    | Name(data: seq<byte>)
    | ShortName(data: seq<byte>)
    | ServiceData(of: UUID, data: seq<byte>)
  {
    predicate Valid() {
      (CompleteServices? || PartialServices? ==> services.Valid()) && (ServiceData? ==> of.Valid())
    }

    /** The default branch of the three UUID setters: nothing is added. */
    predicate Silent() {
      ((CompleteServices? || PartialServices?) && services.Unset?) || (ServiceData? && of.Unset?)
    }
  }

  /** An advertising structure: its type and its data; the length byte counts both. */
  datatype Record = Record(kind: byte, data: seq<byte>)

  /** The bytes of a UUID at its own width, least significant first. */
  function Raw(u: UUID): (b: seq<byte>)
    requires u.Valid()
    ensures |b| * 8 == u.BitSize()
  {
    match u
    case Unset => []
    case U16(v) => Le16(v)
    case U32(v) => Le32(v)
    case U128(b) => b
  }

  function ByWidth(u: UUID, k16: byte, k32: byte, k128: byte): byte {
    if u.U16? then k16 else if u.U32? then k32 else k128
  }

  /** The record that a setter stands for. */
  function RecordOf(a: Ad): Record
    requires a.Valid() && !a.Silent()
  {
    match a
    case Appearance(v) => Record(0x19, Le16(v))
    case CompleteServices(u) => Record(ByWidth(u, 0x03, 0x05, 0x07), Raw(u))
    case PartialServices(u) => Record(ByWidth(u, 0x02, 0x04, 0x06), Raw(u))
    case Flags(f) => Record(0x01, [f])
    case ManufacturerData(d) => Record(0xFF, d)
    case Name(d) => Record(0x09, d)
    case ShortName(d) => Record(0x08, d)
    case ServiceData(u, d) => Record(ByWidth(u, 0x16, 0x20, 0x21), Raw(u) + d)
  }

  function Wire1(r: Record): (b: seq<byte>)
    ensures |b| == |r.data| + 2
  {
    [(|r.data| + 1) % 256, r.kind] + r.data
  }

  function Wire(rs: seq<Record>): seq<byte> {
    if rs == [] then [] else Wire1(rs[0]) + Wire(rs[1..])
  }

  /** What one setter does to the payload: the whole record, or nothing when it does not fit. */
  function After(p: seq<byte>, a: Ad): seq<byte>
    requires a.Valid()
  {
    if a.Silent() || |p| + |Wire1(RecordOf(a))| > MAX then p else p + Wire1(RecordOf(a))
  }

  /** The bytes each setter advertises, as the Bluetooth assigned numbers have them. */
  lemma OnTheWire(a: Ad)
    requires a.Valid() && !a.Silent()
    ensures Wire1(RecordOf(a)) ==
      match a
      case Appearance(v) => [3, 0x19, v % 0x100, v / 0x100]
      case CompleteServices(U16(v)) => [3, 0x03, v % 0x100, v / 0x100]
      case CompleteServices(U32(v)) =>
        [5, 0x05, v % 0x100, v / 0x100 % 0x100, v / 0x1_0000 % 0x100, v / 0x100_0000]
      case CompleteServices(U128(b)) => [17, 0x07] + b
      case PartialServices(U16(v)) => [3, 0x02, v % 0x100, v / 0x100]
      case PartialServices(U32(v)) =>
        [5, 0x04, v % 0x100, v / 0x100 % 0x100, v / 0x1_0000 % 0x100, v / 0x100_0000]
      case PartialServices(U128(b)) => [17, 0x06] + b
      case Flags(v) => [2, 0x01, v]
      case ManufacturerData(d) => [(|d| + 1) % 256, 0xFF] + d
      case Name(d) => [(|d| + 1) % 256, 0x09] + d
      case ShortName(d) => [(|d| + 1) % 256, 0x08] + d
      case ServiceData(U16(v), d) => [(|d| + 3) % 256, 0x16, v % 0x100, v / 0x100] + d
      case ServiceData(U32(v), d) =>
        [(|d| + 5) % 256, 0x20, v % 0x100, v / 0x100 % 0x100, v / 0x1_0000 % 0x100, v / 0x100_0000] + d
      case ServiceData(U128(b), d) => [(|d| + 17) % 256, 0x21] + b + d
      case _ => []
  {
  }

  // ---------------------------------------------------------------- building

  class BLEAdvertisementData {
    var payload: seq<byte>

    constructor ()
      ensures payload == []
    {
      payload := [];
    }

    method AddData(data: seq<byte>)
      modifies this
      ensures payload == if |old(payload)| + |data| > 31 then old(payload) else old(payload) + data
    {
      if |payload| + |data| > MAX {
        return;
      }
      payload := payload + data;
    }

    method SetAppearance(appearance: uint16)
      modifies this
      ensures payload == After(old(payload), Appearance(appearance))
    {
      AddData([3, 0x19] + Le16(appearance));
    }

    method SetCompleteServices(uuid: UUID)
      requires uuid.Valid()
      modifies this
      ensures payload == After(old(payload), CompleteServices(uuid))
    {
      match uuid {
        case U16(v) => AddData([3, 0x03] + Le16(v));
        case U32(v) => AddData([5, 0x05] + Le32(v));
        case U128(b) => AddData([17, 0x07] + b);
        case Unset => return;
      }
    }

    method SetPartialServices(uuid: UUID)
      requires uuid.Valid()
      modifies this
      ensures payload == After(old(payload), PartialServices(uuid))
    {
      match uuid {
        case U16(v) => AddData([3, 0x02] + Le16(v));
        case U32(v) => AddData([5, 0x04] + Le32(v));
        case U128(b) => AddData([17, 0x06] + b);
        case Unset => return;
      }
    }

    method SetFlags(flag: byte)
      modifies this
      ensures payload == After(old(payload), Flags(flag))
    {
      AddData([2, 0x01, flag]);
    }

    method SetManufacturerData(data: seq<byte>)
      modifies this
      ensures payload == After(old(payload), ManufacturerData(data))
    {
      AddData([(|data| + 1) % 256, 0xFF] + data);
    }

    method SetName(name: seq<byte>)
      modifies this
      ensures payload == After(old(payload), Name(name))
    {
      AddData([(|name| + 1) % 256, 0x09] + name);
    }

    method SetShortName(name: seq<byte>)
      modifies this
      ensures payload == After(old(payload), ShortName(name))
    {
      AddData([(|name| + 1) % 256, 0x08] + name);
    }

    method SetServiceData(uuid: UUID, data: seq<byte>)
      requires uuid.Valid()
      modifies this
      ensures payload == After(old(payload), ServiceData(uuid, data))
    {
      match uuid {
        case U16(v) =>
          assert [(|data| + 3) % 256, 0x16] + Le16(v) + data == Wire1(RecordOf(ServiceData(uuid, data)));
          AddData([(|data| + 3) % 256, 0x16] + Le16(v) + data);
        case U32(v) =>
          assert [(|data| + 5) % 256, 0x20] + Le32(v) + data == Wire1(RecordOf(ServiceData(uuid, data)));
          AddData([(|data| + 5) % 256, 0x20] + Le32(v) + data);
        case U128(b) =>
          assert [(|data| + 17) % 256, 0x21] + b + data == Wire1(RecordOf(ServiceData(uuid, data)));
          AddData([(|data| + 17) % 256, 0x21] + b + data);
        case Unset => return;
      }
    }
  }

  /** The payload after a run of setters. */
  function Payload(ads: seq<Ad>): seq<byte>
    requires forall a <- ads :: a.Valid()
  {
    if ads == [] then [] else After(Payload(ads[..|ads| - 1]), ads[|ads| - 1])
  }

  /** The calls of a run that put a record into the payload. */
  function Accepted(ads: seq<Ad>): (acc: seq<Ad>)
    requires forall a <- ads :: a.Valid()
    ensures forall a <- acc :: a in ads && a.Valid() && !a.Silent()
  {
    if ads == [] then [] else
    var before, a := Accepted(ads[..|ads| - 1]), ads[|ads| - 1];
    if a.Silent() || |Wire(Records(before))| + |RecordOf(a).data| + 2 > MAX then before else before + [a]
  }

  function Records(ads: seq<Ad>): (rs: seq<Record>)
    requires forall a <- ads :: a.Valid() && !a.Silent()
    ensures |rs| == |ads| && forall i | 0 <= i < |rs| :: rs[i] == RecordOf(ads[i])
  {
    seq(|ads|, i requires 0 <= i < |ads| => RecordOf(ads[i]))
  }

  lemma {:induction false} WireAppend(rs: seq<Record>, r: Record)
    ensures Wire(rs + [r]) == Wire(rs) + Wire1(r)
  {
    if rs == [] {
      assert [r][1..] == [] && rs + [r] == [r];
    } else {
      assert (rs + [r])[1..] == rs[1..] + [r];
      WireAppend(rs[1..], r);
      assert Wire1(rs[0]) + (Wire(rs[1..]) + Wire1(r)) == Wire1(rs[0]) + Wire(rs[1..]) + Wire1(r);
    }
  }

  /** The payload is always the concatenation of the accepted records and never longer than 31 bytes. */
  lemma {:induction false} PayloadIsRecords(ads: seq<Ad>)
    requires forall a <- ads :: a.Valid()
    ensures Payload(ads) == Wire(Records(Accepted(ads))) && |Payload(ads)| <= 31
  {
    if ads != [] {
      var front, a := ads[..|ads| - 1], ads[|ads| - 1];
      PayloadIsRecords(front);
      var before := Accepted(front);
      if Accepted(ads) == before + [a] {
        assert Records(before + [a]) == Records(before) + [RecordOf(a)];
        WireAppend(Records(before), RecordOf(a));
      }
    }
  }

  // ---------------------------------------------------------------- reading

  /** What an advertised device knows about itself. */
  datatype Fields = Fields(
    adFlag: byte,
    txPower: byte, haveTXPower: bool,
    appearance: uint16, haveAppearance: bool,
    manufacturerData: seq<byte>, haveManufacturerData: bool,
    name: seq<byte>, haveName: bool,
    serviceUUIDs: seq<UUID>, haveServiceUUID: bool,
    serviceDataUUID: UUID, serviceData: seq<byte>, haveServiceData: bool)

  /** The little-endian 16-bit UUIDs in a list; an odd byte at the end is ignored. */
  function Words(d: seq<byte>): (us: seq<UUID>)
    ensures |us| == |d| / 2
  {
    if |d| < 2 then [] else [U16(OfLe16(d))] + Words(d[2..])
  }

  function Longs(d: seq<byte>): (us: seq<UUID>)
    ensures |us| == |d| / 4
  {
    if |d| < 4 then [] else [U32(OfLe32(d))] + Longs(d[4..])
  }

  /** The width of the UUID in front of the service data of a record type; 0 for other types. */
  function DataWidth(kind: byte): nat {
    if kind == 0x16 then 2 else if kind == 0x20 then 4 else if kind == 0x21 then 16 else 0
  }

  /** Record types whose data the parser reads without looking at its length. */
  predicate Readable(r: Record) {
    && (r.kind == 0x0A || r.kind == 0x01 ==> |r.data| >= 1)
    && (r.kind == 0x19 ==> |r.data| >= 2)
    && (r.kind == 0x06 || r.kind == 0x07 ==> |r.data| >= 16)
  }

  function UuidOf(d: seq<byte>, width: nat): UUID
    requires |d| >= width && (width == 2 || width == 4 || width == 16)
  {
    if width == 2 then U16(OfLe16(d)) else if width == 4 then U32(OfLe32(d)) else U128(d[..16])
  }

  /** What reading one record does to the fields. */
  function Handle(f: Fields, r: Record): Fields
    requires Readable(r)
  {
    var d := r.data;
    if r.kind == 0x09 then f.(name := d, haveName := true)
    else if r.kind == 0x0A then f.(txPower := d[0], haveTXPower := true)
    else if r.kind == 0x19 then f.(appearance := OfLe16(d), haveAppearance := true)
    else if r.kind == 0x01 then f.(adFlag := d[0])
    else if 0x02 <= r.kind <= 0x07 then Serves(f, ServicesIn(r))
    else if r.kind == 0xFF then f.(manufacturerData := d, haveManufacturerData := true)
    else HandleData(f, r)
  }

  /** The service UUIDs that a record lists. */
  function ServicesIn(r: Record): seq<UUID>
    requires Readable(r) && 0x02 <= r.kind <= 0x07
  {
    if r.kind <= 0x03 then Words(r.data) else if r.kind <= 0x05 then Longs(r.data) else [U128(r.data[..16])]
  }

  /** Service data too short for its UUID is ignored; with nothing behind the UUID the old data stays. */
  function HandleData(f: Fields, r: Record): Fields {
    var w := DataWidth(r.kind);
    if w == 0 || |r.data| < w then f
    else f.(serviceDataUUID := UuidOf(r.data, w), haveServiceData := true,
            serviceData := if |r.data| > w then r.data[w..] else f.serviceData)
  }

  function Serves(f: Fields, us: seq<UUID>): Fields {
    if us == [] then f else f.(serviceUUIDs := f.serviceUUIDs + us, haveServiceUUID := true)
  }

  lemma {:induction false} WordsAt(d: seq<byte>, k: nat)
    requires k < |d| / 2
    ensures Words(d)[k] == U16(OfLe16(d[2 * k..]))
  {
    if k > 0 {
      WordsAt(d[2..], k - 1);
      assert d[2..][2 * (k - 1)..] == d[2 * k..];
    }
  }

  lemma {:induction false} LongsAt(d: seq<byte>, k: nat)
    requires k < |d| / 4
    ensures Longs(d)[k] == U32(OfLe32(d[4 * k..]))
  {
    if k > 0 {
      LongsAt(d[4..], k - 1);
      assert d[4..][4 * (k - 1)..] == d[4 * k..];
    }
  }

  lemma ServesNext(f: Fields, us: seq<UUID>, k: nat)
    requires k < |us|
    ensures Serves(Serves(f, us[..k]), [us[k]]) == Serves(f, us[..k + 1])
  {
    assert us[..k + 1] == us[..k] + [us[k]];
    assert f.serviceUUIDs + us[..k] + [us[k]] == f.serviceUUIDs + (us[..k] + [us[k]]);
  }

  function HandleAll(f: Fields, rs: seq<Record>): Fields
    requires forall r <- rs :: Readable(r)
    decreases |rs|
  {
    if rs == [] then f else HandleAll(Handle(f, rs[0]), rs[1..])
  }

  // ---------------------------------------------------------------- what records tell

  /** What a record can be about; some are about two things. */
  datatype Topic = AboutFlags | AboutPower | AboutAppearance | AboutMaker | AboutName | AboutServices
    | AboutDataUuid | AboutData

  predicate Tells(r: Record, t: Topic) {
    match t
    case AboutFlags => r.kind == 0x01
    case AboutPower => r.kind == 0x0A
    case AboutAppearance => r.kind == 0x19
    case AboutMaker => r.kind == 0xFF
    case AboutName => r.kind == 0x09
    case AboutServices => r.kind in {0x02, 0x03, 0x04, 0x05, 0x06, 0x07}
    case AboutDataUuid => (r.kind == 0x16 && |r.data| >= 2) || (r.kind == 0x20 && |r.data| >= 4)
                          || (r.kind == 0x21 && |r.data| >= 16)
    case AboutData => (r.kind == 0x16 && |r.data| > 2) || (r.kind == 0x20 && |r.data| > 4)
                      || (r.kind == 0x21 && |r.data| > 16)
  }

  /** The records about something, in order. */
  function On(rs: seq<Record>, t: Topic): (on: seq<Record>)
    ensures forall r <- on :: Tells(r, t) && r in rs
  {
    if rs == [] then []
    else On(rs[..|rs| - 1], t) + (if Tells(rs[|rs| - 1], t) then [rs[|rs| - 1]] else [])
  }

  /** The UUIDs in a list record, each least significant byte first. */
  function Listed(r: Record): seq<UUID>
    requires Readable(r) && Tells(r, AboutServices)
  {
    var d := r.data;
    if r.kind <= 0x03 then
      seq(|d| / 2, i requires 0 <= i < |d| / 2 => U16(d[2 * i] as int + 0x100 * d[2 * i + 1] as int))
    else if r.kind <= 0x05 then
      seq(|d| / 4, i requires 0 <= i < |d| / 4 =>
        U32(d[4 * i] as int + 0x100 * d[4 * i + 1] as int + 0x1_0000 * d[4 * i + 2] as int
            + 0x100_0000 * d[4 * i + 3] as int))
    else [U128(d[..16])]
  }

  function AllListed(rs: seq<Record>): seq<UUID>
    requires forall r <- rs :: Readable(r) && Tells(r, AboutServices)
  {
    if rs == [] then [] else AllListed(rs[..|rs| - 1]) + Listed(rs[|rs| - 1])
  }

  /** What is known of something: a number, bytes, or UUIDs. */
  datatype Fact = Fact(known: bool, number: int, bytes: seq<byte>, uuids: seq<UUID>)

  function Known(f: Fields, t: Topic): Fact {
    match t
    case AboutFlags => Fact(true, f.adFlag, [], [])
    case AboutPower => Fact(f.haveTXPower, f.txPower, [], [])
    case AboutAppearance => Fact(f.haveAppearance, f.appearance, [], [])
    case AboutMaker => Fact(f.haveManufacturerData, 0, f.manufacturerData, [])
    case AboutName => Fact(f.haveName, 0, f.name, [])
    case AboutServices => Fact(f.haveServiceUUID, 0, [], f.serviceUUIDs)
    case AboutDataUuid => Fact(f.haveServiceData, 0, [], [f.serviceDataUUID])
    case AboutData => Fact(true, 0, f.serviceData, [])
  }

  function Told(r: Record, t: Topic): Fact
    requires Readable(r) && Tells(r, t)
  {
    var d := r.data;
    match t
    case AboutFlags => Fact(true, d[0], [], [])
    case AboutPower => Fact(true, d[0], [], [])
    case AboutAppearance => Fact(true, d[0] as int + 0x100 * d[1] as int, [], [])
    case AboutMaker => Fact(true, 0, d, [])
    case AboutName => Fact(true, 0, d, [])
    case AboutServices => Fact(Listed(r) != [], 0, [], Listed(r))
    case AboutDataUuid =>
      Fact(true, 0, [], [
        if r.kind == 0x16 then U16(d[0] as int + 0x100 * d[1] as int)
        else if r.kind == 0x20 then
          U32(d[0] as int + 0x100 * d[1] as int + 0x1_0000 * d[2] as int + 0x100_0000 * d[3] as int)
        else U128(d[..16])])
    case AboutData => Fact(true, 0, d[if r.kind == 0x16 then 2 else if r.kind == 0x20 then 4 else 16..], [])
  }

  /** What is known after reading records, from what was known before: the last record about something has told it, but
      services add up. */
  function Learned(before: Fact, rs: seq<Record>, t: Topic): Fact
    requires forall r <- rs :: Readable(r) && Tells(r, t)
  {
    if t == AboutServices then Fact(before.known || AllListed(rs) != [], 0, [], before.uuids + AllListed(rs))
    else if rs == [] then before
    else Told(rs[|rs| - 1], t)
  }

  lemma OnNext(rs: seq<Record>, r: Record, t: Topic)
    ensures On(rs + [r], t) == On(rs, t) + (if Tells(r, t) then [r] else [])
  {
    assert (rs + [r])[..|rs|] == rs;
  }

  lemma WordsListed(d: seq<byte>)
    ensures Words(d) == seq(|d| / 2, i requires 0 <= i < |d| / 2 => U16(d[2 * i] as int + 0x100 * d[2 * i + 1] as int))
  {
    hide Words;
    forall i | 0 <= i < |d| / 2
      ensures Words(d)[i] == U16(d[2 * i] as int + 0x100 * d[2 * i + 1] as int)
    {
      WordsAt(d, i);
    }
  }

  lemma LongsListed(d: seq<byte>)
    ensures Longs(d) == seq(|d| / 4, i requires 0 <= i < |d| / 4 =>
      U32(d[4 * i] as int + 0x100 * d[4 * i + 1] as int + 0x1_0000 * d[4 * i + 2] as int
          + 0x100_0000 * d[4 * i + 3] as int))
  {
    hide Longs;
    forall i | 0 <= i < |d| / 4
      ensures Longs(d)[i] == U32(d[4 * i] as int + 0x100 * d[4 * i + 1] as int + 0x1_0000 * d[4 * i + 2] as int
                                 + 0x100_0000 * d[4 * i + 3] as int)
    {
      LongsAt(d, i);
    }
  }

  lemma ServicesListed(r: Record)
    requires Readable(r) && Tells(r, AboutServices)
    ensures ServicesIn(r) == Listed(r)
  {
    hide Words, Longs;
    WordsListed(r.data);
    LongsListed(r.data);
  }

  lemma AllListedNext(rs: seq<Record>, r: Record)
    requires forall x <- rs + [r] :: Readable(x) && Tells(x, AboutServices)
    ensures forall x <- rs :: Readable(x) && Tells(x, AboutServices)
    ensures AllListed(rs + [r]) == AllListed(rs) + Listed(r)
  {
    assert (rs + [r])[..|rs|] == rs && r in rs + [r];
    assert forall x <- rs :: x in rs + [r];
  }

  lemma FlagsRead(g: Fields, r: Record)
    requires Readable(r)
    ensures var t := AboutFlags; Known(Handle(g, r), t) == if Tells(r, t) then Told(r, t) else Known(g, t)
  {
    hide ServicesIn, UuidOf, OfLe16;
  }

  lemma PowerRead(g: Fields, r: Record)
    requires Readable(r)
    ensures var t := AboutPower; Known(Handle(g, r), t) == if Tells(r, t) then Told(r, t) else Known(g, t)
  {
    hide ServicesIn, UuidOf, OfLe16;
  }

  lemma AppearanceRead(g: Fields, r: Record)
    requires Readable(r)
    ensures var t := AboutAppearance; Known(Handle(g, r), t) == if Tells(r, t) then Told(r, t) else Known(g, t)
  {
    hide ServicesIn, UuidOf;
  }

  lemma MakerRead(g: Fields, r: Record)
    requires Readable(r)
    ensures var t := AboutMaker; Known(Handle(g, r), t) == if Tells(r, t) then Told(r, t) else Known(g, t)
  {
    hide ServicesIn, UuidOf, OfLe16;
  }

  lemma NameRead(g: Fields, r: Record)
    requires Readable(r)
    ensures var t := AboutName; Known(Handle(g, r), t) == if Tells(r, t) then Told(r, t) else Known(g, t)
  {
    hide ServicesIn, UuidOf, OfLe16;
  }

  lemma ServicesRead(g: Fields, r: Record)
    requires Readable(r)
    ensures var t := AboutServices;
      Known(Handle(g, r), t) ==
        if Tells(r, t) then Fact(g.haveServiceUUID || Listed(r) != [], 0, [], g.serviceUUIDs + Listed(r))
        else Known(g, t)
  {
    hide ServicesIn, UuidOf, OfLe16, Listed;
    if Tells(r, AboutServices) {
      ServicesListed(r);
      assert g.serviceUUIDs + [] == g.serviceUUIDs;
    }
  }

  lemma ToldUuid(r: Record)
    requires Readable(r) && Tells(r, AboutDataUuid)
    ensures DataWidth(r.kind) in {2, 4, 16} && |r.data| >= DataWidth(r.kind)
    ensures Told(r, AboutDataUuid) == Fact(true, 0, [], [UuidOf(r.data, DataWidth(r.kind))])
  {
  }

  lemma DataUuidRead(g: Fields, r: Record)
    requires Readable(r)
    ensures var t := AboutDataUuid; Known(Handle(g, r), t) == if Tells(r, t) then Told(r, t) else Known(g, t)
  {
    hide ServicesIn, UuidOf, Told;
    if Tells(r, AboutDataUuid) {
      ToldUuid(r);
    }
  }

  lemma DataRead(g: Fields, r: Record)
    requires Readable(r)
    ensures var t := AboutData; Known(Handle(g, r), t) == if Tells(r, t) then Told(r, t) else Known(g, t)
  {
    hide ServicesIn, UuidOf, OfLe16;
  }

  /** A record tells what it is about, and leaves the rest as it was. */
  lemma RecordRead(g: Fields, r: Record, t: Topic)
    requires Readable(r)
    ensures t != AboutServices ==> Known(Handle(g, r), t) == if Tells(r, t) then Told(r, t) else Known(g, t)
    ensures t == AboutServices && Tells(r, t) ==>
      Known(Handle(g, r), t) == Fact(g.haveServiceUUID || Listed(r) != [], 0, [], g.serviceUUIDs + Listed(r))
    ensures t == AboutServices && !Tells(r, t) ==> Known(Handle(g, r), t) == Known(g, t)
  {
    hide *;
    match t
    case AboutFlags => FlagsRead(g, r);
    case AboutPower => PowerRead(g, r);
    case AboutAppearance => AppearanceRead(g, r);
    case AboutMaker => MakerRead(g, r);
    case AboutName => NameRead(g, r);
    case AboutServices => ServicesRead(g, r);
    case AboutDataUuid => DataUuidRead(g, r);
    case AboutData => DataRead(g, r);
  }

  /** One record adds to what is learned. */
  lemma LearnedNext(before: Fact, g: Fields, rs: seq<Record>, r: Record, t: Topic)
    requires (forall x <- rs :: Readable(x)) && Readable(r) && Known(g, t) == Learned(before, On(rs, t), t)
    ensures Known(Handle(g, r), t) == Learned(before, On(rs + [r], t), t)
  {
    hide Listed, Readable, AllListed, Handle, Told, Tells, On;
    OnNext(rs, r, t);
    RecordRead(g, r, t);
    assert On(rs, t) + [] == On(rs, t);
    if t == AboutServices && Tells(r, t) {
      AllListedNext(On(rs, t), r);
      assert before.uuids + AllListed(On(rs, t)) + Listed(r) == before.uuids + (AllListed(On(rs, t)) + Listed(r));
    }
  }

  lemma {:induction false} HandleAllNext(f: Fields, rs: seq<Record>, r: Record)
    requires (forall x <- rs :: Readable(x)) && Readable(r)
    ensures forall x <- rs + [r] :: Readable(x)
    ensures HandleAll(f, rs + [r]) == Handle(HandleAll(f, rs), r)
    decreases |rs|
  {
    hide Handle, Readable;
    if rs == [] {
      assert rs + [r] == [r] && [r][1..] == [];
    } else {
      assert (rs + [r])[1..] == rs[1..] + [r];
      HandleAllNext(Handle(f, rs[0]), rs[1..], r);
    }
  }

  /** Reading records tells a device the last thing said about each field, and every service, and nothing else. */
  lemma {:induction false} AllLearned(f: Fields, rs: seq<Record>, t: Topic)
    requires forall r <- rs :: Readable(r)
    ensures Known(HandleAll(f, rs), t) == Learned(Known(f, t), On(rs, t), t)
  {
    hide Handle, Readable, HandleAll, Learned, Known;
    if rs == [] {
      NothingLearned(f, t);
    } else {
      var front, r := rs[..|rs| - 1], rs[|rs| - 1];
      assert rs == front + [r];
      AllLearned(f, front, t);
      HandleAllNext(f, front, r);
      LearnedNext(Known(f, t), HandleAll(f, front), front, r, t);
    }
  }

  lemma NothingLearned(f: Fields, t: Topic)
    ensures On([], t) == [] && Known(HandleAll(f, []), t) == Learned(Known(f, t), [], t)
  {
    assert f.serviceUUIDs + [] == f.serviceUUIDs;
  }

  /** The records the parser gets to: it takes an empty data part for the end. */
  function Reached(rs: seq<Record>): (reached: seq<Record>)
    ensures forall r <- reached :: r in rs
  {
    if rs == [] then [] else if rs[0].data == [] then [rs[0]] else [rs[0]] + Reached(rs[1..])
  }

  /** Zero-padded wire form in n bytes. */
  function ZeroPadded(rs: seq<Record>, n: nat): (b: seq<byte>)
    requires |Wire(rs)| <= n
    ensures |b| == n
  {
    Wire(rs) + seq(n - |Wire(rs)|, _ => 0)
  }

  /** What stands in front of a padded wire form. */
  lemma Front(rs: seq<Record>, from: seq<byte>)
    requires 0 < |from| <= MAX && |Wire(rs)| <= |from| && from == ZeroPadded(rs, |from|) && rs != []
    ensures |rs[0].data| + 2 <= |from| && from[0] == |rs[0].data| + 1 && from[1] == rs[0].kind
    ensures from[2..|rs[0].data| + 2] == rs[0].data
  {
    assert Wire(rs)[..|rs[0].data| + 2] == Wire1(rs[0]);
  }

  lemma Behind(rs: seq<Record>, from: seq<byte>)
    requires 0 < |from| <= MAX && |Wire(rs)| <= |from| && from == ZeroPadded(rs, |from|) && rs != []
    ensures |Wire(rs[1..])| + |rs[0].data| + 2 <= |from|
    ensures from[|rs[0].data| + 2..] == ZeroPadded(rs[1..], |from| - |rs[0].data| - 2)
  {
    hide Wire1;
    var n := |rs[0].data| + 2;
    assert Wire(rs)[n..] == Wire(rs[1..]) && Wire(rs) == Wire1(rs[0]) + Wire(rs[1..]);
    assert |from| - |Wire(rs)| == |from| - n - |Wire(rs[1..])|;
  }

  /** A zero stands in front exactly when no record is left; otherwise the fold goes on behind the first record. */
  lemma NextRecord(f: Fields, rs: seq<Record>, from: seq<byte>)
    requires 0 < |from| <= MAX && |Wire(rs)| <= |from| && from == ZeroPadded(rs, |from|)
    requires forall r <- rs :: Readable(r)
    ensures from[0] == 0 <==> rs == []
    ensures rs == [] ==> HandleAll(f, Reached(rs)) == f
    ensures rs != [] && rs[0].data == [] ==> HandleAll(f, Reached(rs)) == Handle(f, rs[0])
    ensures rs != [] && rs[0].data != [] ==> HandleAll(f, Reached(rs)) == HandleAll(Handle(f, rs[0]), Reached(rs[1..]))
  {
    hide Readable, Handle;
    if rs != [] {
      Front(rs, from);
      assert ([rs[0]] + Reached(rs[1..]))[1..] == Reached(rs[1..]);
      assert [rs[0]][1..] == [];
    }
  }

  lemma NoRoom(f: Fields, rs: seq<Record>)
    requires |Wire(rs)| == 0
    ensures rs == [] && HandleAll(f, Reached(rs)) == f
  {
  }

  class BLEAdvertisedDevice {
    var adFlag: byte
    var txPower: byte
    var haveTXPower: bool
    var appearance: uint16
    var haveAppearance: bool
    var manufacturerData: seq<byte>
    var haveManufacturerData: bool
    var name: seq<byte>
    var haveName: bool
    var serviceUUIDs: seq<UUID>
    var haveServiceUUID: bool
    var serviceDataUUID: UUID
    var serviceData: seq<byte>
    var haveServiceData: bool

    ghost function View(): Fields
      reads this
    {
      Fields(adFlag, txPower, haveTXPower, appearance, haveAppearance, manufacturerData, haveManufacturerData,
             name, haveName, serviceUUIDs, haveServiceUUID, serviceDataUUID, serviceData, haveServiceData)
    }

    constructor ()
      ensures View() == Fields(0, 0, false, 0, false, [], false, [], false, [], false, Unset, [], false)
    {
      adFlag, txPower, haveTXPower, appearance, haveAppearance := 0, 0, false, 0, false;
      manufacturerData, haveManufacturerData, name, haveName := [], false, [], false;
      serviceUUIDs, haveServiceUUID, serviceDataUUID, serviceData, haveServiceData := [], false, Unset, [], false;
    }

    method SetServiceUUID(uuid: UUID)
      modifies this
      ensures View() == Serves(old(View()), [uuid])
    {
      serviceUUIDs, haveServiceUUID := serviceUUIDs + [uuid], true;
    }

    method SetServices16(payload: seq<byte>)
      modifies this
      ensures View() == Serves(old(View()), Words(payload))
    {
      hide Words, OfLe16;
      var k := 0;
      assert Words(payload)[..0] == [];
      while k < |payload| / 2
        invariant 0 <= k <= |payload| / 2
        invariant View() == Serves(old(View()), Words(payload)[..k])
      {
        WordsAt(payload, k);
        ServesNext(old(View()), Words(payload), k);
        SetServiceUUID(U16(OfLe16(payload[2 * k..])));
        k := k + 1;
      }
    }

    method SetServices32(payload: seq<byte>)
      modifies this
      ensures View() == Serves(old(View()), Longs(payload))
    {
      hide Longs, OfLe32;
      var k := 0;
      assert Longs(payload)[..0] == [];
      while k < |payload| / 4
        invariant 0 <= k <= |payload| / 4
        invariant View() == Serves(old(View()), Longs(payload)[..k])
      {
        LongsAt(payload, k);
        ServesNext(old(View()), Longs(payload), k);
        SetServiceUUID(U32(OfLe32(payload[4 * k..])));
        k := k + 1;
      }
    }

    /** The switch of parseAdvertisement on one record. */
    method HandleRecord(adType: byte, data: seq<byte>)
      requires Readable(Record(adType, data))
      modifies this
      ensures View() == Handle(old(View()), Record(adType, data))
    {
      hide ServicesIn, HandleData, Serves, OfLe16;
      if adType == 0x09 {
        name, haveName := data, true;
      } else if adType == 0x0A {
        txPower, haveTXPower := data[0], true;
      } else if adType == 0x19 {
        appearance, haveAppearance := OfLe16(data), true;
      } else if adType == 0x01 {
        adFlag := data[0];
      } else if 0x02 <= adType <= 0x07 {
        HandleServices(adType, data);
      } else if adType == 0xFF {
        manufacturerData, haveManufacturerData := data, true;
      } else {
        HandleServiceData(adType, data);
      }
    }

    method HandleServices(adType: byte, data: seq<byte>)
      requires Readable(Record(adType, data)) && 0x02 <= adType <= 0x07
      modifies this
      ensures View() == Serves(old(View()), ServicesIn(Record(adType, data)))
    {
      if adType == 0x02 || adType == 0x03 {
        SetServices16(data);
      } else if adType == 0x04 || adType == 0x05 {
        SetServices32(data);
      } else {
        SetServiceUUID(U128(data[..16]));
      }
    }

    method HandleServiceData(adType: byte, data: seq<byte>)
      modifies this
      ensures View() == HandleData(old(View()), Record(adType, data))
    {
      if adType == 0x16 {
        if |data| < 2 {
          return;
        }
        serviceDataUUID, haveServiceData := U16(OfLe16(data)), true;
        if |data| > 2 {
          serviceData := data[2..];
        }
      } else if adType == 0x20 {
        if |data| < 4 {
          return;
        }
        serviceDataUUID, haveServiceData := U32(OfLe32(data)), true;
        if |data| > 4 {
          serviceData := data[4..];
        }
      } else if adType == 0x21 {
        if |data| < 16 {
          return;
        }
        serviceDataUUID, haveServiceData := U128(data[..16]), true;
        if |data| > 16 {
          serviceData := data[16..];
        }
      }
    }

    /** On the zero-padded wire form of any readable records: terminates, stays inside the 31 bytes, and
        handles exactly the records up to the first with no data. */
    method ParseAdvertisement(payload: seq<byte>, ghost rs: seq<Record>)
      requires forall r <- rs :: Readable(r)
      requires |Wire(rs)| <= MAX && payload == ZeroPadded(rs, MAX)
      modifies this
      ensures View() == HandleAll(old(View()), Reached(rs))
      ensures forall t: Topic :: Known(View(), t) == Learned(Known(old(View()), t), On(Reached(rs), t), t)
    {
      hide Readable, Handle, HandleAll, Reached, Wire, Wire1, ZeroPadded, Learned, Known, On;
      forall t: Topic
        ensures Known(HandleAll(View(), Reached(rs)), t) == Learned(Known(View(), t), On(Reached(rs), t), t)
      {
        AllLearned(View(), Reached(rs), t);
      }
      var p, sizeConsumed, finished := 0, 0, false;
      ghost var rest := rs;
      assert payload[0..] == payload;
      while !finished
        invariant 0 <= p <= MAX && (!finished ==> sizeConsumed == p < MAX)
        invariant forall r <- rest :: Readable(r)
        invariant !finished ==> |Wire(rest)| <= MAX - p && payload[p..] == ZeroPadded(rest, MAX - p)
        invariant !finished ==> HandleAll(old(View()), Reached(rs)) == HandleAll(View(), Reached(rest))
        invariant finished ==> View() == HandleAll(old(View()), Reached(rs))
        decreases !finished, MAX - p
      {
        ghost var from := payload[p..];
        NextRecord(View(), rest, from);
        var length: int := payload[p];
        assert length == from[0];
        p := p + 1;
        sizeConsumed := (sizeConsumed + 1 + length) % 256;
        if length != 0 {
          Front(rest, from);
          Behind(rest, from);
          var adType := payload[p];
          assert adType == from[1];
          p := p + 1;
          length := length - 1;
          assert payload[p..p + length] == from[2..2 + length] == rest[0].data;
          assert Record(adType, payload[p..p + length]) == rest[0];
          HandleRecord(adType, payload[p..p + length]);
          p := p + length;
          assert payload[p..] == from[length + 2..];
          rest := rest[1..];
          if p == MAX {
            NoRoom(View(), rest);
          }
        }
        if sizeConsumed >= 31 || length == 0 {
          finished := true;
        }
      }
    }

    /** Answers by equality of the 128-bit forms. */
    method IsAdvertisingService(uuid: UUID) returns (found: bool)
      requires uuid.Valid() && forall u <- serviceUUIDs :: u.Valid()
      ensures found <==> !uuid.Unset? && exists i | 0 <= i < |serviceUUIDs| :: Full(serviceUUIDs[i]) == Full(uuid)
    {
      var i := 0;
      while i < |serviceUUIDs|
        invariant 0 <= i <= |serviceUUIDs|
        invariant forall k | 0 <= k < i :: uuid.Unset? || Full(serviceUUIDs[k]) != Full(uuid)
      {
        EqualsIsFull(serviceUUIDs[i], uuid);
        if Equals(serviceUUIDs[i], uuid) {
          return true;
        }
        i := i + 1;
      }
      return false;
    }
  }

  // ---------------------------------------------------------------- round trip

  /** What a setter is meant to tell a scanning device; a short name is not kept. */
  function Effect(f: Fields, a: Ad): Fields {
    match a
    case Appearance(v) => f.(appearance := v, haveAppearance := true)
    case CompleteServices(u) => f.(serviceUUIDs := f.serviceUUIDs + [u], haveServiceUUID := true)
    case PartialServices(u) => f.(serviceUUIDs := f.serviceUUIDs + [u], haveServiceUUID := true)
    case Flags(v) => f.(adFlag := v)
    case ManufacturerData(d) => f.(manufacturerData := d, haveManufacturerData := true)
    case Name(d) => f.(name := d, haveName := true)
    case ShortName(_) => f
    case ServiceData(u, d) => f.(serviceDataUUID := u, haveServiceData := true, serviceData := d)
  }

  function Effects(f: Fields, ads: seq<Ad>): Fields
    decreases |ads|
  {
    if ads == [] then f else Effects(Effect(f, ads[0]), ads[1..])
  }

  /** The service data after a setter as it is meant, and as the parser leaves it: a record that carries a UUID
      and nothing more does not replace the data held so far. */
  function Meant(a: Ad, held: seq<byte>): seq<byte> {
    if a.ServiceData? then a.data else held
  }

  function Kept(a: Ad, held: seq<byte>): seq<byte> {
    if Carries(a) then a.data else held
  }

  predicate Carries(a: Ad) {
    a.ServiceData? && a.data != []
  }

  /** The same after a run of setters. */
  function MeantAll(ads: seq<Ad>, held: seq<byte>): seq<byte>
    decreases |ads|
  {
    if ads == [] then held else MeantAll(ads[1..], Meant(ads[0], held))
  }

  function KeptAll(ads: seq<Ad>, held: seq<byte>): seq<byte>
    decreases |ads|
  {
    if ads == [] then held else KeptAll(ads[1..], Kept(ads[0], held))
  }

  /** Setter k is the last one for service data and has none, while data is held or was set before it. */
  predicate StaleAt(held: seq<byte>, ads: seq<Ad>, k: nat)
    requires k < |ads|
  {
    && ads[k].ServiceData? && ads[k].data == []
    && (forall j | k < j < |ads| :: !ads[j].ServiceData?)
    && (held != [] || exists j | 0 <= j < k :: Carries(ads[j]))
  }

  predicate Stale(held: seq<byte>, ads: seq<Ad>) {
    exists k | 0 <= k < |ads| :: StaleAt(held, ads, k)
  }

  /** Setters whose record has no data. */
  predicate Empty(a: Ad) {
    (a.Name? || a.ShortName? || a.ManufacturerData?) && a.data == []
  }

  /** The setters whose records the parser gets to. */
  function Seen(ads: seq<Ad>): (seen: seq<Ad>)
    ensures seen <= ads
  {
    if ads == [] then [] else if Empty(ads[0]) then [ads[0]] else [ads[0]] + Seen(ads[1..])
  }

  lemma RawBack(u: UUID, d: seq<byte>)
    requires u.Valid() && !u.Unset?
    ensures var b := Raw(u) + d; UuidOf(b, |Raw(u)|) == u && b[|Raw(u)|..] == d && Raw(u) != []
  {
    match u {
      case U16(v) => LittleEndian(v, 0);
      case U32(w) => LittleEndian(0, w);
      case U128(b) => assert (b + d)[..16] == b;
      case Unset =>
    }
  }

  lemma ServicesBack(u: UUID, kind: byte)
    requires u.Valid() && !u.Unset? && (kind == ByWidth(u, 0x02, 0x04, 0x06) || kind == ByWidth(u, 0x03, 0x05, 0x07))
    ensures var r := Record(kind, Raw(u)); Readable(r) && 0x02 <= kind <= 0x07 && ServicesIn(r) == [u]
  {
    match u {
      case U16(v) => LittleEndian(v, 0); assert Words(Le16(v)[2..]) == [];
      case U32(w) => LittleEndian(0, w); assert Longs(Le32(w)[4..]) == [];
      case U128(b) => assert b[..16] == b;
      case Unset =>
    }
  }

  lemma HandleServicesAd(f: Fields, a: Ad)
    requires a.Valid() && !a.Silent() && (a.CompleteServices? || a.PartialServices?)
    ensures Readable(RecordOf(a)) && RecordOf(a).data != []
    ensures Handle(f, RecordOf(a)) == Effect(f, a) == Effect(f, a).(serviceData := f.serviceData)
  {
    hide Raw, ServicesIn, Handle, Effect, Readable, ByWidth;
    RawBack(a.services, []);
    ServicesBack(a.services, if a.CompleteServices? then ByWidth(a.services, 0x03, 0x05, 0x07)
      else ByWidth(a.services, 0x02, 0x04, 0x06));
    HandleList(f, RecordOf(a));
    ServesOne(f, a);
  }

  lemma HandleList(f: Fields, r: Record)
    requires Readable(r) && 0x02 <= r.kind <= 0x07
    ensures Handle(f, r) == Serves(f, ServicesIn(r))
  {
    hide ServicesIn, Serves;
  }

  lemma ServesOne(f: Fields, a: Ad)
    requires a.CompleteServices? || a.PartialServices?
    ensures Serves(f, [a.services]) == Effect(f, a) == Effect(f, a).(serviceData := f.serviceData)
  {
    var Fields(flag, tx, haveTx, app, haveApp, man, haveMan, name, haveName, us, haveUs, at, data, haveData) := f;
    assert Effect(f, a) == Fields(flag, tx, haveTx, app, haveApp, man, haveMan, name, haveName,
                                  us + [a.services], true, at, data, haveData);
  }

  lemma HandleDataAd(f: Fields, a: Ad)
    requires a.Valid() && !a.Silent() && a.ServiceData?
    ensures Readable(RecordOf(a)) && RecordOf(a).data != []
    ensures Handle(f, RecordOf(a)) == Effect(f, a).(serviceData := if a.data != [] then a.data else f.serviceData)
    ensures Effect(f, a).serviceData == a.data
  {
    hide Raw, UuidOf;
    RawBack(a.of, a.data);
  }

  lemma HandlePlainAd(f: Fields, a: Ad)
    requires a.Valid() && !a.CompleteServices? && !a.PartialServices? && !a.ServiceData?
    ensures Readable(RecordOf(a)) && (RecordOf(a).data == [] <==> Empty(a))
    ensures Handle(f, RecordOf(a)) == Effect(f, a) == Effect(f, a).(serviceData := f.serviceData)
  {
    hide Le16, OfLe16;
    if a.Appearance? {
      LittleEndian(a.appearance, 0);
      Le16Length(a.appearance);
    }
  }

  /** Reading the record of a setter has the effect the setter is meant to have, unless it is service data without
      data and the device holds some. */
  lemma HandleOfAd(f: Fields, a: Ad)
    requires a.Valid() && !a.Silent()
    ensures Readable(RecordOf(a))
    ensures Handle(f, RecordOf(a)) == Effect(f, a).(serviceData := Kept(a, f.serviceData))
    ensures Handle(f, RecordOf(a)) == Effect(f, a) <==> !(a.ServiceData? && a.data == [] && f.serviceData != [])
    ensures RecordOf(a).data == [] <==> Empty(a)
  {
    hide RecordOf, Handle, Effect, Readable, Ad.Valid, Ad.Silent;
    if a.ServiceData? {
      HandleDataAd(f, a);
    } else if a.CompleteServices? || a.PartialServices? {
      HandleServicesAd(f, a);
    } else {
      HandlePlainAd(f, a);
    }
  }

  lemma Le16Length(v: uint16)
    ensures |Le16(v)| == 2
  {
  }

  lemma OtherNumbers(g: Fields, held: seq<byte>, a: Ad)
    requires a.Appearance? || a.Flags?
    ensures Effect(g.(serviceData := held), a) == Effect(g, a).(serviceData := held)
  {
    var Fields(flag, tx, haveTx, app, haveApp, man, haveMan, name, haveName, us, haveUs, at, data, haveData) := g;
    match a
    case Appearance(v) =>
      assert Effect(g, a)
        == Fields(flag, tx, haveTx, v, true, man, haveMan, name, haveName, us, haveUs, at, data, haveData);
    case Flags(v) =>
      assert Effect(g, a)
        == Fields(v, tx, haveTx, app, haveApp, man, haveMan, name, haveName, us, haveUs, at, data, haveData);
  }

  lemma OtherTexts(g: Fields, held: seq<byte>, a: Ad)
    requires a.ManufacturerData? || a.Name? || a.ShortName?
    ensures Effect(g.(serviceData := held), a) == Effect(g, a).(serviceData := held)
  {
    var Fields(flag, tx, haveTx, app, haveApp, man, haveMan, name, haveName, us, haveUs, at, data, haveData) := g;
    match a
    case ManufacturerData(d) =>
      assert Effect(g, a)
        == Fields(flag, tx, haveTx, app, haveApp, d, true, name, haveName, us, haveUs, at, data, haveData);
    case Name(d) =>
      assert Effect(g, a)
        == Fields(flag, tx, haveTx, app, haveApp, man, haveMan, d, true, us, haveUs, at, data, haveData);
    case ShortName(_) =>
  }

  lemma OtherServices(g: Fields, held: seq<byte>, a: Ad)
    requires a.CompleteServices? || a.PartialServices?
    ensures Effect(g.(serviceData := held), a) == Effect(g, a).(serviceData := held)
  {
    var Fields(flag, tx, haveTx, app, haveApp, man, haveMan, name, haveName, us, haveUs, at, data, haveData) := g;
    assert Effect(g, a) == Fields(flag, tx, haveTx, app, haveApp, man, haveMan, name, haveName,
                                  us + [a.services], true, at, data, haveData);
  }

  lemma NewData(g: Fields, held: seq<byte>, a: Ad)
    requires a.ServiceData?
    ensures Effect(g.(serviceData := held), a) == Effect(g, a) == Effect(g, a).(serviceData := a.data)
  {
    var Fields(flag, tx, haveTx, app, haveApp, man, haveMan, name, haveName, us, haveUs, at, data, haveData) := g;
    assert Effect(g, a)
      == Fields(flag, tx, haveTx, app, haveApp, man, haveMan, name, haveName, us, haveUs, a.of, a.data, true);
  }

  lemma OtherFields(g: Fields, held: seq<byte>, a: Ad)
    ensures Effect(g.(serviceData := held), a) == Effect(g, a).(serviceData := Meant(a, held))
  {
    hide Effect;
    match a
    case Appearance(_) => OtherNumbers(g, held, a);
    case Flags(_) => OtherNumbers(g, held, a);
    case ManufacturerData(_) => OtherTexts(g, held, a);
    case Name(_) => OtherTexts(g, held, a);
    case ShortName(_) => OtherTexts(g, held, a);
    case CompleteServices(_) => OtherServices(g, held, a);
    case PartialServices(_) => OtherServices(g, held, a);
    case ServiceData(_, _) => NewData(g, held, a);
  }

  /** The service data a device held before has no say in the other fields. */
  lemma {:induction false} EffectsData(f: Fields, g: Fields, ads: seq<Ad>)
    requires f == g.(serviceData := f.serviceData)
    ensures Effects(f, ads).serviceData == MeantAll(ads, f.serviceData)
    ensures Effects(f, ads) == Effects(g, ads).(serviceData := Effects(f, ads).serviceData)
    decreases |ads|
  {
    hide Effect, Meant;
    if ads != [] {
      OtherFields(g, f.serviceData, ads[0]);
      EffectsData(Effect(f, ads[0]), Effect(g, ads[0]), ads[1..]);
    }
  }

  /** The parser gets through exactly the run of setters up to the first without data, and differs from what they
      mean in nothing but the service data. */
  lemma {:induction false} HandleAllOfAds(f: Fields, ads: seq<Ad>)
    requires forall a <- ads :: a.Valid() && !a.Silent()
    ensures forall r <- Records(ads) :: Readable(r)
    ensures HandleAll(f, Reached(Records(ads)))
      == Effects(f, Seen(ads)).(serviceData := KeptAll(Seen(ads), f.serviceData))
    decreases |ads|
  {
    hide RecordOf, Handle, Effect, Readable, Empty, Kept;
    forall r | r in Records(ads)
      ensures Readable(r)
    {
      var i :| 0 <= i < |ads| && r == RecordOf(ads[i]);
      HandleOfAd(f, ads[i]);
    }
    if ads != [] {
      var a := ads[0];
      HandleOfAd(f, a);
      var g, held := Effect(f, a), Kept(a, f.serviceData);
      HandleAllOfAds(g.(serviceData := held), ads[1..]);
      EffectsData(g.(serviceData := held), g, Seen(ads[1..]));
      assert Records(ads)[1..] == Records(ads[1..]);
      assert ([a] + Seen(ads[1..]))[1..] == Seen(ads[1..]) && [a][1..] == [];
      assert ([RecordOf(a)] + Reached(Records(ads[1..])))[1..] == Reached(Records(ads[1..]));
      assert [RecordOf(a)][1..] == [];
    }
  }

  // ---------------------------------------------------------------- where the service data is stale

  lemma {:induction false} KeptNext(ads: seq<Ad>, a: Ad, held: seq<byte>)
    ensures KeptAll(ads + [a], held) == Kept(a, KeptAll(ads, held))
    ensures MeantAll(ads + [a], held) == Meant(a, MeantAll(ads, held))
    decreases |ads|
  {
    hide Kept, Meant;
    if ads == [] {
      assert ads + [a] == [a] && [a][1..] == [];
    } else {
      assert (ads + [a])[1..] == ads[1..] + [a];
      KeptNext(ads[1..], a, Kept(ads[0], held));
      KeptNext(ads[1..], a, Meant(ads[0], held));
    }
  }

  lemma {:induction false} KeptNothing(ads: seq<Ad>, held: seq<byte>)
    ensures KeptAll(ads, held) == [] <==> held == [] && forall j | 0 <= j < |ads| :: !Carries(ads[j])
    decreases |ads|
  {
    if ads != [] {
      KeptNothing(ads[1..], Kept(ads[0], held));
      hide KeptAll;
      assert forall j | 0 <= j < |ads| - 1 :: ads[1..][j] == ads[j + 1];
      assert (forall j | 0 <= j < |ads| :: !Carries(ads[j]))
        <==> !Carries(ads[0]) && (forall j | 0 <= j < |ads| - 1 :: !Carries(ads[1..][j]));
    }
  }

  /** The parser leaves the service data that was meant exactly when the run is not stale. */
  lemma {:induction false} StaleExactly(held: seq<byte>, ads: seq<Ad>)
    ensures KeptAll(ads, held) == MeantAll(ads, held) <==> !Stale(held, ads)
    decreases |ads|
  {
    if ads != [] {
      var n := |ads| - 1;
      var front, a := ads[..n], ads[n];
      assert ads == front + [a];
      KeptNext(front, a, held);
      StaleExactly(held, front);
      if !a.ServiceData? {
        assert forall k | 0 <= k < n :: StaleAt(held, ads, k) <==> StaleAt(held, front, k);
      } else {
        KeptNothing(front, held);
        assert forall k | 0 <= k < n :: !StaleAt(held, ads, k);
        assert StaleAt(held, ads, n) <==> a.data == [] && KeptAll(front, held) != [];
      }
    }
  }

  /** Any run of setters gives a payload that the parser may be called on. Parsing it applies the accepted setters up
      to the first without data, exactly when these do not end with service data that has none after some that has. */
  lemma AdvertisementRoundTrip(f: Fields, ads: seq<Ad>)
    requires forall a <- ads :: a.Valid()
    ensures var acc := Accepted(ads);
      && Payload(ads) == Wire(Records(acc)) && |Wire(Records(acc))| <= MAX
      && (forall r <- Records(acc) :: Readable(r))
      && (HandleAll(f, Reached(Records(acc))) == Effects(f, Seen(acc)) <==> !Stale(f.serviceData, Seen(acc)))
  {
    var acc := Accepted(ads);
    PayloadIsRecords(ads);
    HandleAllOfAds(f, acc);
    EffectsData(f, f, Seen(acc));
    StaleExactly(f.serviceData, Seen(acc));
  }

  /** Service data without data leaves the new UUID with the old data. */
  lemma EmptyServiceDataStale(f: Fields)
    ensures var ads := [ServiceData(U16(1), [5]), ServiceData(U16(2), [])];
      && Accepted(ads) == ads && Seen(ads) == ads
      && var d := HandleAll(f, Reached(Records(ads)));
      && d.serviceDataUUID == U16(2) && d.serviceData == [5] && Effects(f, ads).serviceData == []
  {
    hide *;
    var ads := [ServiceData(U16(1), [5]), ServiceData(U16(2), [])];
    BothServiceData(f);
    BothServiceDataAccepted();
    HandleAllOfAds(f, ads);
  }

  lemma BothServiceData(f: Fields)
    ensures var ads := [ServiceData(U16(1), [5]), ServiceData(U16(2), [])];
      && (forall a <- ads :: a.Valid() && !a.Silent()) && Seen(ads) == ads
      && KeptAll(ads, f.serviceData) == [5]
      && Effects(f, ads).serviceDataUUID == U16(2) && Effects(f, ads).serviceData == []
  {
    var x, y := ServiceData(U16(1), [5]), ServiceData(U16(2), []);
    var ads := [x, y];
    assert ads[1..] == [y] && [y][1..] == [];
    assert Seen([y]) == [y];
    assert Effects(f, ads) == Effects(Effect(f, x), [y]) == Effect(Effect(f, x), y);
    assert KeptAll(ads, f.serviceData) == KeptAll([y], [5]) == [5];
  }

  lemma BothServiceDataAccepted()
    ensures var ads := [ServiceData(U16(1), [5]), ServiceData(U16(2), [])]; Accepted(ads) == ads
  {
    var x, y := ServiceData(U16(1), [5]), ServiceData(U16(2), []);
    assert |RecordOf(x).data| == 3 && |RecordOf(y).data| == 2;
    AcceptsNext(x, y);
  }

  lemma AcceptsNext(x: Ad, y: Ad)
    requires x.Valid() && !x.Silent() && y.Valid() && !y.Silent() && |RecordOf(x).data| + |RecordOf(y).data| + 4 <= MAX
    ensures Accepted([x, y]) == [x, y]
  {
    hide Wire, RecordOf, Ad.Silent, Ad.Valid;
    AcceptsFirst(x);
    assert [x, y][..1] == [x] && [x] + [y] == [x, y];
  }

  /** Nothing is lost exactly when no setter but the last has empty data. */
  lemma {:induction false} AllSeenExactly(ads: seq<Ad>)
    ensures Seen(ads) == ads <==> forall i | 0 <= i < |ads| - 1 :: !Empty(ads[i])
  {
    if ads != [] {
      AllSeenExactly(ads[1..]);
      assert ads == [ads[0]] + ads[1..];
      assert forall i | 0 <= i < |ads| - 2 :: ads[1..][i] == ads[i + 1];
      if forall i | 0 <= i < |ads| - 1 :: !Empty(ads[i]) {
        assert |ads| > 1 ==> !Empty(ads[0]);
      }
    }
  }

  /** An empty name hides the flags set after it, although both records are advertised. */
  lemma EmptyNameHidesFlags(f: Fields)
    ensures var ads := [Name([]), Flags(6)];
      && Accepted(ads) == ads
      && HandleAll(f, Reached(Records(ads))).adFlag == f.adFlag
      && Effects(f, ads).adFlag == 6
  {
    hide *;
    BothAccepted();
    HandleAllOfAds(f, [Name([]), Flags(6)]);
    OnlyFirstSeen(f);
  }

  lemma BothAccepted()
    ensures Accepted([Name([]), Flags(6)]) == [Name([]), Flags(6)]
  {
    assert |RecordOf(Name([])).data| == 0 && |RecordOf(Flags(6)).data| == 1;
    AcceptsNext(Name([]), Flags(6));
  }

  lemma OnlyFirstSeen(f: Fields)
    ensures var ads := [Name([]), Flags(6)];
      && (forall a <- ads :: a.Valid() && !a.Silent())
      && Effects(f, Seen(ads)).adFlag == f.adFlag && Effects(f, ads).adFlag == 6
  {
    var n, g := Name([]), Flags(6);
    var ads := [n, g];
    assert Empty(n) && Seen(ads) == [n] && [n][1..] == [];
    assert ads[1..] == [g] && [g][1..] == [];
    assert Effects(f, ads) == Effects(Effect(f, n), [g]) == Effect(Effect(f, n), g);
    assert Effects(f, [n]) == Effects(Effect(f, n), []) == Effect(f, n);
  }

  lemma AcceptsFirst(a: Ad)
    requires a.Valid() && !a.Silent() && |RecordOf(a).data| + 2 <= MAX
    ensures Accepted([a]) == [a] && |Wire(Records([a]))| == |RecordOf(a).data| + 2
  {
    assert [a][..0] == [] && Records([]) == [];
    var rs := Records([a]);
    assert rs == [RecordOf(a)] && rs[1..] == [];
  }

  /** The services of a run, in order. */
  function Services(ads: seq<Ad>): seq<UUID> {
    if ads == [] then []
    else (if ads[0].CompleteServices? || ads[0].PartialServices? then [ads[0].services] else []) + Services(ads[1..])
  }

  lemma ServicesNext(f: Fields, a: Ad)
    ensures Effect(f, a).serviceUUIDs
      == f.serviceUUIDs + (if a.CompleteServices? || a.PartialServices? then [a.services] else [])
  {
    match a {
      case Appearance(_) => case CompleteServices(_) => case PartialServices(_) => case Flags(_) =>
      case ManufacturerData(_) => case Name(_) => case ShortName(_) => case ServiceData(_, _) =>
    }
    assert f.serviceUUIDs + [] == f.serviceUUIDs;
  }

  lemma {:induction false} EffectsServices(f: Fields, ads: seq<Ad>)
    ensures Effects(f, ads).serviceUUIDs == f.serviceUUIDs + Services(ads)
    decreases |ads|
  {
    hide Effect;
    if ads != [] {
      EffectsServices(Effect(f, ads[0]), ads[1..]);
      ServicesNext(f, ads[0]);
    }
  }

  /** The setter advertises this service, in whatever width. */
  predicate Lists(a: Ad, u: UUID)
    requires a.Valid() && u.Valid()
  {
    (a.CompleteServices? || a.PartialServices?) && Full(a.services) == Full(u)
  }

  /** The services a device learns are those of the setters it sees, in order. */
  lemma ServicesInOrder(f: Fields, ads: seq<Ad>)
    requires forall a <- ads :: a.Valid() && !a.Silent()
    ensures forall r <- Records(ads) :: Readable(r)
    ensures HandleAll(f, Reached(Records(ads))).serviceUUIDs == f.serviceUUIDs + Services(Seen(ads))
  {
    HandleAllOfAds(f, ads);
    EffectsServices(f, Seen(ads));
  }

  /** A device without services, having read a run, answers for exactly the services of the setters it sees. */
  lemma AdvertisesExactly(f: Fields, ads: seq<Ad>, u: UUID)
    requires u.Valid() && forall a <- ads :: a.Valid() && !a.Silent()
    requires f.serviceUUIDs == []
    ensures forall r <- Records(ads) :: Readable(r)
    ensures var us := HandleAll(f, Reached(Records(ads))).serviceUUIDs;
      && (forall v <- us :: v.Valid())
      && ((exists v <- us :: Full(v) == Full(u)) <==> (exists a <- Seen(ads) :: Lists(a, u)))
  {
    ServicesInOrder(f, ads);
    hide Full;
    assert forall a <- Seen(ads) :: a in ads;
    ListsInServices(Seen(ads), u);
  }

  lemma {:induction false} ListsInServices(ads: seq<Ad>, u: UUID)
    requires u.Valid() && forall a <- ads :: a.Valid()
    ensures forall v <- Services(ads) :: v.Valid()
    ensures (exists v <- Services(ads) :: Full(v) == Full(u)) <==> (exists a <- ads :: Lists(a, u))
  {
    hide Full;
    if ads != [] {
      ListsInServices(ads[1..], u);
      assert ads == [ads[0]] + ads[1..];
      if v :| v in Services(ads[1..]) && Full(v) == Full(u) {
        assert v in Services(ads);
      }
      if Lists(ads[0], u) {
        assert ads[0].services in Services(ads);
      }
    }
  }

  /** What a device knows from one setter. */
  predicate Knows(f: Fields, a: Ad) {
    match a
    case Appearance(v) => f.haveAppearance && f.appearance == v
    case CompleteServices(u) => f.haveServiceUUID && u in f.serviceUUIDs
    case PartialServices(u) => f.haveServiceUUID && u in f.serviceUUIDs
    case Flags(v) => f.adFlag == v
    case ManufacturerData(d) => f.haveManufacturerData && f.manufacturerData == d
    case Name(d) => f.haveName && f.name == d
    case ShortName(_) => true
    case ServiceData(u, d) => f.haveServiceData && f.serviceDataUUID == u && f.serviceData == d
  }

  /** Setters of different fields. */
  predicate OtherField(a: Ad, b: Ad) {
    && (a.Appearance? ==> !b.Appearance?) && (a.Flags? ==> !b.Flags?) && (a.Name? ==> !b.Name?)
    && (a.ManufacturerData? ==> !b.ManufacturerData?) && (a.ServiceData? ==> !b.ServiceData?)
  }

  lemma KnowsStep(f: Fields, a: Ad, b: Ad)
    ensures Knows(Effect(f, b), b)
    ensures Knows(f, a) && OtherField(a, b) ==> Knows(Effect(f, b), a)
  {
  }

  lemma {:induction false} StillKnows(f: Fields, a: Ad, ads: seq<Ad>)
    requires Knows(f, a) && forall b <- ads :: OtherField(a, b)
    ensures Knows(Effects(f, ads), a)
    decreases |ads|
  {
    hide Knows, Effect, OtherField;
    if ads != [] {
      KnowsStep(f, a, ads[0]);
      StillKnows(Effect(f, ads[0]), a, ads[1..]);
    }
  }

  /** It is meant that the last setter of each field wins and every service is kept. */
  lemma {:induction false} MeantLastWins(f: Fields, ads: seq<Ad>, k: nat)
    requires k < |ads| && forall j | k < j < |ads| :: OtherField(ads[k], ads[j])
    ensures Knows(Effects(f, ads), ads[k])
    decreases |ads|
  {
    hide Knows, Effect, OtherField;
    if k == 0 {
      KnowsStep(f, ads[0], ads[0]);
      StillKnows(Effect(f, ads[0]), ads[0], ads[1..]);
    } else {
      MeantLastWins(Effect(f, ads[0]), ads[1..], k - 1);
    }
  }

  lemma KnowsData(f: Fields, left: seq<byte>, a: Ad)
    requires Knows(f, a)
    ensures Knows(f.(serviceData := left), a) <==> !a.ServiceData? || left == f.serviceData
  {
  }

  lemma OnlyLastStale(held: seq<byte>, ads: seq<Ad>, k: nat)
    requires k < |ads| && forall j | k < j < |ads| :: OtherField(ads[k], ads[j])
    ensures ads[k].ServiceData? ==> (Stale(held, ads) <==> StaleAt(held, ads, k))
  {
    if ads[k].ServiceData? {
      assert forall j | k < j < |ads| :: !ads[j].ServiceData?;
      assert forall j | 0 <= j < |ads| && j != k :: !StaleAt(held, ads, j);
    }
  }

  /** A device knows the last setter it sees of each field, and every service, exactly unless that setter is service
      data without data while data is held or was set before. */
  lemma LastWins(f: Fields, ads: seq<Ad>, k: nat)
    requires forall a <- ads :: a.Valid() && !a.Silent()
    requires k < |Seen(ads)| && forall j | k < j < |Seen(ads)| :: OtherField(Seen(ads)[k], Seen(ads)[j])
    ensures forall r <- Records(ads) :: Readable(r)
    ensures Knows(HandleAll(f, Reached(Records(ads))), Seen(ads)[k]) <==> !StaleAt(f.serviceData, Seen(ads), k)
  {
    hide *;
    var seen := Seen(ads);
    HandleAllOfAds(f, ads);
    MeantLastWins(f, seen, k);
    EffectsData(f, f, seen);
    KnowsData(Effects(f, seen), KeptAll(seen, f.serviceData), seen[k]);
    StaleExactly(f.serviceData, seen);
    OnlyLastStale(f.serviceData, seen, k);
    StaleIsData(f.serviceData, seen, k);
  }

  lemma StaleIsData(held: seq<byte>, ads: seq<Ad>, k: nat)
    requires k < |ads|
    ensures StaleAt(held, ads, k) ==> ads[k].ServiceData?
  {
  }

  /** A run of setters, the padding the controller adds, and the parser on the other side. */
  method Advertise(ads: seq<Ad>, device: BLEAdvertisedDevice)
    requires forall a <- ads :: a.Valid()
    modifies device
    ensures forall r <- Records(Accepted(ads)) :: Readable(r)
    ensures device.View() == HandleAll(old(device.View()), Reached(Records(Accepted(ads))))
    ensures var was, seen := old(device.View()), Seen(Accepted(ads));
      device.View() == Effects(was, seen) <==> !Stale(was.serviceData, seen)
  {
    hide After, Accepted, Wire, HandleAll, Effects, Stale, Seen, Reached, Records, Readable;
    AdvertisementRoundTrip(device.View(), ads);
    var adv := new BLEAdvertisementData();
    for i := 0 to |ads|
      modifies adv
      invariant adv.payload == Payload(ads[..i])
    {
      assert ads[i] in ads && ads[..i + 1][..i] == ads[..i];
      Announce(adv, ads[i]);
    }
    assert ads[..|ads|] == ads;
    device.ParseAdvertisement(adv.payload + seq(MAX - |adv.payload|, _ => 0), Records(Accepted(ads)));
  }

  /** The setter call that an Ad stands for. */
  method Announce(adv: BLEAdvertisementData, a: Ad)
    requires a.Valid()
    modifies adv
    ensures adv.payload == After(old(adv.payload), a)
  {
    hide After;
    match a {
      case Appearance(v) => adv.SetAppearance(v);
      case CompleteServices(u) => adv.SetCompleteServices(u);
      case PartialServices(u) => adv.SetPartialServices(u);
      case Flags(v) => adv.SetFlags(v);
      case ManufacturerData(d) => adv.SetManufacturerData(d);
      case Name(d) => adv.SetName(d);
      case ShortName(d) => adv.SetShortName(d);
      case ServiceData(u, d) => adv.SetServiceData(u, d);
    }
  }
}
