/** Telemetry batches: every batch with an id takes effect once, however often it is sent. */
module Ingest {
  import opened Bytes

  /** A normalised reading; `values` are the columns that are only stored. */
  datatype Reading = Reading(id: string, deviceId: string, stationId: string, values: seq<int>,
                             rssi: int, cachedCount: int, recordedAt: string)

  datatype Device = Device(status: string, lastSeen: string)

  datatype Station = Station(status: string, network: string, heartbeat: string, rssi: int, cachedCount: int)

  datatype Tables = Tables(readings: map<string, Reading>, devices: map<string, Device>, stations: map<string, Station>)

  datatype Batch = Batch(batchId: Option<string>, readings: seq<Reading>)

  // Batch ids -----------------------------------------------------------------------------------

  predicate IsSpace(c: char) {
    c == ' ' || c == '\t' || c == '\n' || c == '\r'
  }

  function TrimStart(s: string): string {
    if s != "" && IsSpace(s[0]) then TrimStart(s[1..]) else s
  }

  function TrimEnd(s: string): string
    decreases |s|
  {
    if s != "" && IsSpace(s[|s| - 1]) then TrimEnd(s[..|s| - 1]) else s
  }

  /** The id of a batch, without blanks around it; empty for a batch without one. */
  function BatchKey(b: Batch): string {
    match b.batchId
    case None => ""
    case Some(id) => TrimEnd(TrimStart(id))
  }

  /** Only blanks, tabs, line feeds and carriage returns. */
  predicate AllBlank(s: string) {
    forall c :: c in s ==> c in " \t\n\r"
  }

  /** No blank, tab, line feed or carriage return at either end. */
  predicate NoBlankEnds(s: string) {
    s != "" ==> s[0] !in " \t\n\r" && s[|s| - 1] !in " \t\n\r"
  }

  lemma {:induction false} FrontTrimmed(s: string) returns (blanks: string)
    ensures s == blanks + TrimStart(s) && AllBlank(blanks)
    ensures TrimStart(s) != "" ==> !IsSpace(TrimStart(s)[0])
    decreases |s|
  {
    blanks := "";
    if s != "" && IsSpace(s[0]) {
      var more := FrontTrimmed(s[1..]);
      blanks := [s[0]] + more;
      assert s == [s[0]] + s[1..];
    }
  }

  lemma {:induction false} BackTrimmed(s: string) returns (blanks: string)
    ensures s == TrimEnd(s) + blanks && AllBlank(blanks)
    ensures TrimEnd(s) != "" ==> !IsSpace(TrimEnd(s)[|TrimEnd(s)| - 1]) && TrimEnd(s)[0] == s[0]
    decreases |s|
  {
    blanks := "";
    if s != "" && IsSpace(s[|s| - 1]) {
      var more := BackTrimmed(s[..|s| - 1]);
      blanks := more + [s[|s| - 1]];
      assert s == s[..|s| - 1] + [s[|s| - 1]];
    }
  }

  /** The key of a batch with an id is the id without the blanks around it; one without an id has the empty key. */
  lemma KeyExactly(b: Batch) returns (before: string, after: string)
    ensures b.batchId == None ==> BatchKey(b) == ""
    ensures b.batchId.Some? ==>
      && b.batchId.value == before + BatchKey(b) + after
      && AllBlank(before) && AllBlank(after) && NoBlankEnds(BatchKey(b))
  {
    before, after := "", "";
    if b.batchId.Some? {
      before := FrontTrimmed(b.batchId.value);
      after := BackTrimmed(TrimStart(b.batchId.value));
    }
  }

  /** An id without blanks around it is its own key, so such ids have equal keys only if they are equal. */
  lemma OwnKey(b: Batch)
    requires b.batchId.Some? && NoBlankEnds(b.batchId.value)
    ensures BatchKey(b) == b.batchId.value
  {
  }

  // Storing readings ----------------------------------------------------------------------------

  function SeenDevice(d: Device, r: Reading): Device {
    Device("online", r.recordedAt)
  }

  function SeenStation(r: Reading): Station {
    Station("online", "cloud-online", r.recordedAt, r.rssi, r.cachedCount)
  }

  /** Insert or replace the reading, and touch its device and its station if they are known. */
  function Store(t: Tables, r: Reading): Tables {
    Tables(t.readings[r.id := r],
           if r.deviceId in t.devices then t.devices[r.deviceId := SeenDevice(t.devices[r.deviceId], r)] else t.devices,
           if r.stationId in t.stations then t.stations[r.stationId := SeenStation(r)] else t.stations)
  }

  function StoreAll(t: Tables, readings: seq<Reading>): Tables
    decreases |readings|
  {
    if readings == [] then t else Store(StoreAll(t, readings[..|readings| - 1]), readings[|readings| - 1])
  }

  // Ingesting -----------------------------------------------------------------------------------

  datatype Database = Database(tables: Tables, batches: set<string>)

  /** `ingestTelemetryBatch`: the database after it, and whether the batch was a duplicate. */
  function IngestBatch(db: Database, b: Batch): (Database, bool) {
    var key := BatchKey(b);
    if key != "" && key in db.batches then (db, true)
    else (Database(StoreAll(db.tables, b.readings), if key != "" then db.batches + {key} else db.batches), false)
  }

  function IngestAll(db: Database, batches: seq<Batch>): Database
    decreases |batches|
  {
    if batches == [] then db else IngestBatch(IngestAll(db, batches[..|batches| - 1]), batches[|batches| - 1]).0
  }

  /** The batches with every repeat of a non-empty id removed; `seen` are the ids that came before. */
  function FirstOnly(batches: seq<Batch>, seen: set<string>): seq<Batch> {
    if batches == [] then []
    else
      var key := BatchKey(batches[0]);
      if key != "" && key in seen then FirstOnly(batches[1..], seen)
      else [batches[0]] + FirstOnly(batches[1..], if key != "" then seen + {key} else seen)
  }

  /** All readings of some batches, in order. */
  function Stream(batches: seq<Batch>): seq<Reading> {
    if batches == [] then [] else batches[0].readings + Stream(batches[1..])
  }

  lemma {:induction false} StoreAllConcat(t: Tables, a: seq<Reading>, b: seq<Reading>)
    ensures StoreAll(t, a + b) == StoreAll(StoreAll(t, a), b)
    decreases |b|
  {
    hide Store;
    if b == [] {
      assert a + b == a;
    } else {
      assert (a + b)[..|a + b| - 1] == a + b[..|b| - 1];
      StoreAllConcat(t, a, b[..|b| - 1]);
    }
  }

  lemma {:induction false} IngestAllFront(db: Database, batches: seq<Batch>)
    requires batches != []
    ensures IngestAll(db, batches) == IngestAll(IngestBatch(db, batches[0]).0, batches[1..])
    decreases |batches|
  {
    hide IngestBatch;
    if |batches| == 1 {
      assert batches[..0] == [] && batches[1..] == [];
    } else {
      var front := batches[..|batches| - 1];
      IngestAllFront(db, front);
      assert front[1..] == batches[1..][..|batches| - 2];
    }
  }

  /** Exactly once: whatever batches come, in whatever order and however often repeated, the tables are
      those of the sequence with every repeat of a non-empty batch id removed. */
  lemma {:induction false} ExactlyOnce(db: Database, batches: seq<Batch>)
    ensures IngestAll(db, batches).tables == StoreAll(db.tables, Stream(FirstOnly(batches, db.batches)))
    ensures IngestAll(db, batches).batches == db.batches + Keys(batches)
    decreases |batches|
  {
    hide StoreAll, BatchKey;
    if batches == [] {
      NothingStored(db.tables);
      return;
    }
    var b, rest := batches[0], batches[1..];
    var next := IngestBatch(db, b).0;
    IngestAllFront(db, batches);
    ExactlyOnce(next, rest);
    KeysFront(batches);
    if !IngestBatch(db, b).1 {
      var more := Stream(FirstOnly(rest, next.batches));
      assert ([b] + FirstOnly(rest, next.batches))[1..] == FirstOnly(rest, next.batches);
      StoreAllConcat(db.tables, b.readings, more);
    }
  }

  lemma NothingStored(t: Tables)
    ensures StoreAll(t, []) == t
  {
  }

  function Keys(batches: seq<Batch>): set<string> {
    set i | 0 <= i < |batches| && BatchKey(batches[i]) != "" :: BatchKey(batches[i])
  }

  lemma KeysFront(batches: seq<Batch>)
    requires batches != []
    ensures Keys(batches) == Keys(batches[1..]) + if BatchKey(batches[0]) != "" then {BatchKey(batches[0])} else {}
  {
    hide BatchKey;
    var rest := batches[1..];
    forall key
      ensures key in Keys(batches) <==> key in Keys(rest) || (key == BatchKey(batches[0]) && key != "")
    {
      if key in Keys(batches) {
        var i :| 0 <= i < |batches| && BatchKey(batches[i]) != "" && BatchKey(batches[i]) == key;
        assert i > 0 ==> rest[i - 1] == batches[i];
      }
      if key in Keys(rest) {
        var i :| 0 <= i < |rest| && BatchKey(rest[i]) != "" && BatchKey(rest[i]) == key;
        assert batches[i + 1] == rest[i];
      }
    }
  }

  /** Sending a batch again, at any later time, changes nothing if it has an id. */
  lemma RepeatIsIgnored(db: Database, before: seq<Batch>, b: Batch)
    requires BatchKey(b) in Keys(before)
    ensures IngestBatch(IngestAll(db, before), b) == (IngestAll(db, before), true)
  {
    ExactlyOnce(db, before);
  }

  // What the tables hold ------------------------------------------------------------------------

  /** The last reading of a stream that concerns `x`, by one of its columns. */
  function LastOf(readings: seq<Reading>, column: Reading -> string, x: string): Option<Reading>
    decreases |readings|
  {
    if readings == [] then None
    else
      var n := |readings| - 1;
      if column(readings[n]) == x then Some(readings[n]) else LastOf(readings[..n], column, x)
  }

  /** The last word wins: a stored reading is the last one with its id, and devices and stations show the
      last reading that came for them; unknown ones stay unknown, and those never mentioned stay as they were. */
  lemma {:induction false} LastWins(t: Tables, readings: seq<Reading>, x: string)
    ensures var u := StoreAll(t, readings);
      && (match LastOf(readings, (r: Reading) => r.id, x)
          case None => (x in u.readings <==> x in t.readings) && (x in t.readings ==> u.readings[x] == t.readings[x])
          case Some(r) => x in u.readings && u.readings[x] == r)
      && (x in u.devices <==> x in t.devices) && (x in u.stations <==> x in t.stations)
      && (x in t.devices ==>
            u.devices[x] == match LastOf(readings, (r: Reading) => r.deviceId, x)
                            case None => t.devices[x]
                            case Some(r) => Device("online", r.recordedAt))
      && (x in t.stations ==>
            u.stations[x] == match LastOf(readings, (r: Reading) => r.stationId, x)
                             case None => t.stations[x]
                             case Some(r) => Station("online", "cloud-online", r.recordedAt, r.rssi, r.cachedCount))
    decreases |readings|
  {
    if readings != [] {
      LastWins(t, readings[..|readings| - 1], x);
    }
  }

  // The server ----------------------------------------------------------------------------------

  class Server {
    var readings: map<string, Reading>
    var devices: map<string, Device>
    var stations: map<string, Station>
    var batches: set<string>

    function Abs(): Database
      reads this
    {
      Database(Tables(readings, devices, stations), batches)
    }

    constructor (devices0: map<string, Device>, stations0: map<string, Station>)
      ensures Abs() == Database(Tables(map[], devices0, stations0), {})
    {
      readings, devices, stations, batches := map[], devices0, stations0, {};
    }

    /** `ingestTelemetry`. */
    method IngestTelemetry(stream: seq<Reading>)
      modifies this`readings, this`devices, this`stations
      ensures Abs() == old(Abs()).(tables := StoreAll(old(Abs()).tables, stream))
    {
      for i := 0 to |stream|
        invariant Abs() == old(Abs()).(tables := StoreAll(old(Abs()).tables, stream[..i]))
      {
        assert stream[..i + 1][..i] == stream[..i];
        var r := stream[i];
        readings := readings[r.id := r];
        if r.deviceId in devices {
          devices := devices[r.deviceId := Device("online", r.recordedAt)];
        }
        if r.stationId in stations {
          stations := stations[r.stationId := Station("online", "cloud-online", r.recordedAt, r.rssi, r.cachedCount)];
        }
      }
      assert stream[..|stream|] == stream;
    }

    /** `ingestTelemetryBatch`. */
    method IngestTelemetryBatch(b: Batch) returns (stored: seq<Reading>, duplicate: bool)
      modifies this
      ensures (Abs(), duplicate) == IngestBatch(old(Abs()), b)
      ensures stored == if duplicate then [] else b.readings
    {
      var batchId := BatchKey(b);
      if batchId != "" && batchId in batches {
        return [], true;
      }
      IngestTelemetry(b.readings);
      if batchId != "" {
        batches := batches + {batchId};
      }
      return b.readings, false;
    }
  }
}
