/**
 * The in-memory result store: a JSON object whose keys are year texts (plus the
 * "anonymous" flag), each year an object from distance code to an array of skier
 * objects; and the read-only view handed to the analyses, year -> distance -> records.
 */
module SkiStore {
  import opened Text
  import opened TimeCodec

  datatype Json =
    | JNull
    | JBool(b: bool)
    | JNumber(n: real)
    | JString(s: string)
    | JArray(items: seq<Json>)
    | JObject(fields: map<string, Json>)

  /** One skier's result: field name -> text. */
  type Record = map<string, string>

  /** Distance code -> the results of that race, in stored order. */
  type SkiingData = map<string, seq<Record>>

  /** The whole store: year text -> year object, and "anonymous" -> flag. */
  type Database = map<string, Json>

  /** Reading a field the way a hash's operator[] does: a missing field reads as "". */
  function Field(r: Record, name: string): string
  {
    if name in r then r[name] else ""
  }

  /** Reading a bucket the way a hash's operator[] does: a missing bucket reads as empty. */
  function Bucket(data: SkiingData, key: string): seq<Record>
  {
    if key in data then data[key] else []
  }

  // ---------------------------------------------------------------------------
  // Reading the store

  /** A skier object as a record: its string-valued fields, every other field dropped. */
  function ObjectToRecord(fields: map<string, Json>): (r: Record)
    ensures r.Keys <= fields.Keys
    ensures forall k :: k in r ==> fields[k] == JString(r[k])
    ensures forall k | k in fields && fields[k].JString? :: k in r
  {
    map k | k in fields && fields[k].JString? :: fields[k].s
  }

  /** A bucket array as records: one record per object element, in array order. */
  function ArrayToRecords(items: seq<Json>): (rs: seq<Record>)
    ensures |rs| <= |items|
    decreases |items|
  {
    if items == [] then []
    else
      var last := items[|items| - 1];
      ArrayToRecords(items[..|items| - 1]) + (if last.JObject? then [ObjectToRecord(last.fields)] else [])
  }

  /**
   * The data of one year: empty when the year text is not an object in the store;
   * for distance "" every array-valued bucket, otherwise at most the named one.
   */
  function SkiingDataOf(db: Database, year: int, distance: string): (data: SkiingData)
    ensures IntToString(year) !in db || !db[IntToString(year)].JObject? ==> data == map[]
    ensures distance != "" ==> data.Keys <= {distance}
    ensures IntToString(year) in db && db[IntToString(year)].JObject? ==>
              var fields := db[IntToString(year)].fields;
              forall k :: k in data <==> k in fields && fields[k].JArray? && (distance == "" || k == distance)
  {
    var y := IntToString(year);
    if y in db && db[y].JObject? then
      var fields := db[y].fields;
      map k | k in fields && fields[k].JArray? && (distance == "" || k == distance) :: ArrayToRecords(fields[k].items)
    else map[]
  }

  // ---------------------------------------------------------------------------
  // Writing the store

  function RecordToJson(r: Record): Json
  {
    JObject(map k | k in r :: JString(r[k]))
  }

  function BucketToJson(rs: seq<Record>): Json
  {
    JArray(seq(|rs|, i requires 0 <= i < |rs| => RecordToJson(rs[i])))
  }

  /** The year object written for a page's buckets. */
  function YearToJson(buckets: SkiingData): Json
  {
    JObject(map k | k in buckets :: BucketToJson(buckets[k]))
  }

  /** Reading back a written record gives the record. */
  lemma RecordRoundTrip(r: Record)
    ensures ObjectToRecord(RecordToJson(r).fields) == r
  {
    assert ObjectToRecord(RecordToJson(r).fields).Keys == r.Keys;
  }

  /** Reading back an array of records gives the records, in the same order. */
  lemma {:induction false} ArrayRoundTrip(rs: seq<Record>)
    ensures ArrayToRecords(BucketToJson(rs).items) == rs
    decreases |rs|
  {
    if rs != [] {
      var items := BucketToJson(rs).items;
      var front := rs[..|rs| - 1];
      assert items[..|items| - 1] == BucketToJson(front).items;
      ArrayRoundTrip(front);
      RecordRoundTrip(rs[|rs| - 1]);
      assert rs == front + [rs[|rs| - 1]];
    }
  }

  /**
   * Writing a year's buckets and reading that year back, for all distances, gives
   * exactly the buckets written.
   */
  lemma ReadAfterWriteAll(db: Database, year: int, buckets: SkiingData)
    ensures SkiingDataOf(db[IntToString(year) := YearToJson(buckets)], year, "") == buckets
  {
    var data := SkiingDataOf(db[IntToString(year) := YearToJson(buckets)], year, "");
    assert data.Keys == buckets.Keys;
    forall k | k in buckets ensures data[k] == buckets[k] {
      ArrayRoundTrip(buckets[k]);
    }
  }

  /** Reading back one distance of a written year gives that distance's bucket, or nothing. */
  lemma ReadAfterWriteOne(db: Database, year: int, buckets: SkiingData, distance: string)
    requires distance != ""
    ensures SkiingDataOf(db[IntToString(year) := YearToJson(buckets)], year, distance) ==
              if distance in buckets then map[distance := buckets[distance]] else map[]
  {
    if distance in buckets {
      ArrayRoundTrip(buckets[distance]);
    }
  }

  /** When every element is an object, the records are those objects, one for one. */
  lemma {:induction false} ArrayToRecordsOfObjects(items: seq<Json>)
    requires forall i :: 0 <= i < |items| ==> items[i].JObject?
    ensures |ArrayToRecords(items)| == |items|
    ensures forall i :: 0 <= i < |items| ==> ArrayToRecords(items)[i] == ObjectToRecord(items[i].fields)
    decreases |items|
  {
    if items != [] {
      ArrayToRecordsOfObjects(items[..|items| - 1]);
    }
  }

  /** Elements that are not objects are dropped; the objects keep their relative order. */
  lemma {:induction false} ArrayToRecordsOfAppend(items: seq<Json>, more: seq<Json>)
    ensures ArrayToRecords(items + more) == ArrayToRecords(items) + ArrayToRecords(more)
    decreases |more|
  {
    if more != [] {
      var all := items + more;
      assert all[..|all| - 1] == items + more[..|more| - 1];
      ArrayToRecordsOfAppend(items, more[..|more| - 1]);
      var last := more[|more| - 1];
      assert all[|all| - 1] == last;
      var tail := if last.JObject? then [ObjectToRecord(last.fields)] else [];
      assert ArrayToRecords(more) == ArrayToRecords(more[..|more| - 1]) + tail;
      assert ArrayToRecords(all) == ArrayToRecords(items) + ArrayToRecords(more[..|more| - 1]) + tail;
      assert ArrayToRecords(items) + ArrayToRecords(more[..|more| - 1]) + tail
          == ArrayToRecords(items) + (ArrayToRecords(more[..|more| - 1]) + tail);
    } else {
      assert items + more == items;
    }
  }

  // ---------------------------------------------------------------------------
  // What the time analyses need of the stored data

  /** Every stored time text of a year object is one the time parser can read. */
  predicate YearTimesReadable(year: Json)
  {
    year.JObject? ==>
      forall k | k in year.fields && year.fields[k].JArray? ::
        forall i | 0 <= i < |year.fields[k].items| ::
          var item := year.fields[k].items[i];
          item.JObject? && "time" in item.fields && item.fields["time"].JString? ==>
            InDomain(item.fields["time"].s)
  }

  predicate TimesReadable(db: Database)
  {
    forall y | y in db :: YearTimesReadable(db[y])
  }

  lemma {:induction false} RecordsOfReadableArray(items: seq<Json>)
    requires forall i | 0 <= i < |items| ::
               items[i].JObject? && "time" in items[i].fields && items[i].fields["time"].JString? ==>
                 InDomain(items[i].fields["time"].s)
    ensures forall r | r in ArrayToRecords(items) :: InDomain(Field(r, "time"))
    decreases |items|
  {
    if items != [] {
      RecordsOfReadableArray(items[..|items| - 1]);
    }
  }

  /** Every record the lookup hands out from a readable store has a readable time. */
  lemma LookupTimesReadable(db: Database, year: int, distance: string)
    requires TimesReadable(db)
    ensures forall k | k in SkiingDataOf(db, year, distance) ::
              forall r | r in SkiingDataOf(db, year, distance)[k] :: InDomain(Field(r, "time"))
  {
    var y := IntToString(year);
    if y in db && db[y].JObject? {
      forall k | k in SkiingDataOf(db, year, distance)
        ensures forall r | r in SkiingDataOf(db, year, distance)[k] :: InDomain(Field(r, "time"))
      {
        assert YearTimesReadable(db[y]);
        RecordsOfReadableArray(db[y].fields[k].items);
      }
    }
  }
}
