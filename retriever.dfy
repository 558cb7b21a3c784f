/**
 * The data retriever: it keeps the result store, reads it from the cache file or
 * fetches it from the result archive (one entry-page request for the form tokens,
 * then one results-page request per year), and hands out one year's data to the
 * analyses. Network requests, file operations and signals are the events a call
 * produces; replies, the cache file's contents and today's year are parameters.
 */
module Retriever {
  import opened Options
  import opened Text
  import opened SkiStore
  import opened Scraper

  /** The operation codes of network replies: a GET and a POST. */
  const GetOperation: int := 2
  const PostOperation: int := 4

  /** The first year whose results are requested. */
  const StartYear: int := 1974

  /** What a call does to the world outside the store, in the order it does it. */
  datatype Event =
    | GetRequest                                                  // the entry page
    | PostRequest(year: int, viewState: string, eventValidation: string)  // one year's results
    | DataReady(progress: int, total: int)                        // progress or ready signal
    | ParametersReady                                             // the form tokens are set
    | RemoveCacheFile
    | SaveCacheFile(contents: Database)

  /** A network reply: the operation it answers and its body text. */
  datatype Reply = Reply(operation: int, body: string)

  /** The store a retriever starts from: nothing but the anonymous flag. */
  function FreshDatabase(anonymous: bool): (db: Database)
    ensures db.Keys == {"anonymous"} && db["anonymous"] == JBool(anonymous)
  {
    map["anonymous" := JBool(anonymous)]
  }

  /** A JSON value read as a boolean: a boolean's value, false for anything else. */
  function ToBool(v: Json): bool
  {
    v.JBool? && v.b
  }

  /**
   * A cached store that has to be fetched again: its anonymous flag is missing or
   * differs from the retriever's mode.
   */
  predicate Stale(db: Database, anonymous: bool)
  {
    "anonymous" !in db || ToBool(db["anonymous"]) != anonymous
  }

  /** The store after a results-page reply: the page's year replaced by its buckets. */
  function StorePage(db: Database, page: Option<Page>): (r: Database)
    ensures page.None? ==> r == db
    ensures page.Some? ==> r.Keys == db.Keys + {page.value.year}
    ensures page.Some? ==> r[page.value.year] == YearToJson(page.value.buckets)
    ensures forall k :: k in db && (page.None? || k != page.value.year) ==> r[k] == db[k]
  {
    if page.Some? then db[page.value.year := YearToJson(page.value.buckets)] else db
  }

  /** The form tokens after an entry-page reply; a page without them keeps the old ones. */
  function NewParameters(old_: seq<string>, page: string): (r: seq<string>)
    requires |old_| == 2
    ensures |r| == 2
    ensures Tokens(page).Some? ==> r == Tokens(page).value
  {
    if Tokens(page).Some? then Tokens(page).value else old_
  }

  /** The number of results-page requests made in the given year: one per year since 1974. */
  function RequestCount(currentYear: int): nat
  {
    if currentYear >= StartYear then currentYear - StartYear + 1 else 0
  }

  /** The request counters (sent, received) after one results-page reply. */
  function AfterPostReply(sent: int, received: int): (int, int)
  {
    if sent == received + 1 then (0, 0) else (sent, received + 1)
  }

  /** The request counters after m results-page replies. */
  function AfterPostReplies(sent: int, received: int, m: nat): (int, int)
    decreases m
  {
    if m == 0 then (sent, received)
    else
      var next := AfterPostReply(sent, received);
      AfterPostReplies(next.0, next.1, m - 1)
  }

  /**
   * The completion barrier: with fewer replies received than requests sent, the
   * counters only count up until the last outstanding reply, which resets both to 0.
   */
  lemma {:induction false} AllRepliesComplete(sent: int, received: int)
    requires 0 <= received < sent
    ensures AfterPostReplies(sent, received, sent - received) == (0, 0)
    ensures forall m :: 0 <= m < sent - received ==> AfterPostReplies(sent, received, m) == (sent, received + m)
    decreases sent - received
  {
    if received + 1 < sent {
      AllRepliesComplete(sent, received + 1);
      assert AfterPostReplies(sent, received, sent - received) == AfterPostReplies(sent, received + 1, sent - received - 1);
      forall m | 0 < m < sent - received ensures AfterPostReplies(sent, received, m) == (sent, received + m) {
        assert AfterPostReplies(sent, received, m) == AfterPostReplies(sent, received + 1, m - 1);
      }
    } else {
      assert AfterPostReplies(sent, received, 1) == AfterPostReplies(0, 0, 0);
    }
  }

  /** No year's text is the key of the anonymous flag. */
  lemma NoYearIsAnonymous(year: int)
    ensures IntToString(year) != "anonymous"
  {
    var y := IntToString(year);
    if year >= 0 {
      assert AllDigits(NatToString(year));
      assert IsDigit(y[0]);
    } else {
      assert y[0] == '-';
    }
  }

  /** A freshly reset store is current for its mode and holds no year's data. */
  lemma FreshDatabaseHoldsNoYears(anonymous: bool, year: int, distance: string)
    ensures !Stale(FreshDatabase(anonymous), anonymous)
    ensures SkiingDataOf(FreshDatabase(anonymous), year, distance) == map[]
  {
    NoYearIsAnonymous(year);
  }

  /** The string fields among the given keys, folded in key order. */
  function StringFieldsOf(fields: map<string, Json>, keys: seq<string>): (r: Record)
    decreases |keys|
  {
    if keys == [] then map[]
    else
      var key := keys[|keys| - 1];
      var front := StringFieldsOf(fields, keys[..|keys| - 1]);
      if key in fields && fields[key].JString? then front[key := fields[key].s] else front
  }

  /** Folding over keys keeps exactly the listed string fields. */
  lemma {:induction false} StringFieldsOfKeys(fields: map<string, Json>, keys: seq<string>)
    ensures forall k :: k in StringFieldsOf(fields, keys) <==> k in keys && k in fields && fields[k].JString?
    ensures forall k :: k in StringFieldsOf(fields, keys) ==> StringFieldsOf(fields, keys)[k] == fields[k].s
    decreases |keys|
  {
    if keys != [] {
      var front := keys[..|keys| - 1];
      StringFieldsOfKeys(fields, front);
      assert keys == front + [keys[|keys| - 1]];
    }
  }

  /** The array-valued distances among the given keys as records, folded in key order. */
  function ArrayFieldsOf(fields: map<string, Json>, keys: seq<string>): (r: SkiingData)
    decreases |keys|
  {
    if keys == [] then map[]
    else
      var key := keys[|keys| - 1];
      var front := ArrayFieldsOf(fields, keys[..|keys| - 1]);
      if key in fields && fields[key].JArray? then front[key := ArrayToRecords(fields[key].items)] else front
  }

  /** Folding over keys keeps exactly the listed array-valued distances. */
  lemma {:induction false} ArrayFieldsOfKeys(fields: map<string, Json>, keys: seq<string>)
    ensures forall k :: k in ArrayFieldsOf(fields, keys) <==> k in keys && k in fields && fields[k].JArray?
    ensures forall k :: k in ArrayFieldsOf(fields, keys) ==> ArrayFieldsOf(fields, keys)[k] == ArrayToRecords(fields[k].items)
    decreases |keys|
  {
    if keys != [] {
      var front := keys[..|keys| - 1];
      ArrayFieldsOfKeys(fields, front);
      assert keys == front + [keys[|keys| - 1]];
    }
  }

  /**
   * Folding over the distance alone, or over every key of the year object, gives
   * the distances the lookup hands out.
   */
  lemma ArrayFieldsOfLookup(db: Database, year: int, keys: seq<string>, distance: string)
    requires IntToString(year) in db && db[IntToString(year)].JObject?
    requires distance != "" ==> keys == [distance]
    requires distance == "" ==> forall k :: k in keys <==> k in db[IntToString(year)].fields
    ensures ArrayFieldsOf(db[IntToString(year)].fields, keys) == SkiingDataOf(db, year, distance)
  {
    var fields := db[IntToString(year)].fields;
    ArrayFieldsOfKeys(fields, keys);
    assert ArrayFieldsOf(fields, keys).Keys == SkiingDataOf(db, year, distance).Keys;
  }

  /** Folding over every key of an object gives its record. */
  lemma StringFieldsOfObject(fields: map<string, Json>, keys: seq<string>)
    requires forall k :: k in keys <==> k in fields
    ensures StringFieldsOf(fields, keys) == ObjectToRecord(fields)
  {
    StringFieldsOfKeys(fields, keys);
    assert StringFieldsOf(fields, keys).Keys == ObjectToRecord(fields).Keys;
  }

  /** A skier object's string fields as a record, walking the object's keys in order. */
  method SkierDataToHash(fields: map<string, Json>) returns (r: Record)
    ensures r == ObjectToRecord(fields)
  {
    var keys := OrderedKeys(fields.Keys);
    r := map[];
    var i := 0;
    while i < |keys|
      invariant 0 <= i <= |keys|
      invariant r == StringFieldsOf(fields, keys[..i])
    {
      var key := keys[i];
      assert keys[..i + 1][..i] == keys[..i];
      if key in fields && fields[key].JString? {
        r := r[key := fields[key].s];
      }
      i := i + 1;
    }
    assert keys[..i] == keys;
    SortedKeysEnumerates(fields.Keys);
    StringFieldsOfObject(fields, keys);
  }

  /** A bucket array's object elements as records, in array order. */
  method DistanceDataToVector(items: seq<Json>) returns (rs: seq<Record>)
    ensures rs == ArrayToRecords(items)
  {
    rs := [];
    var i := 0;
    while i < |items|
      invariant 0 <= i <= |items|
      invariant rs == ArrayToRecords(items[..i])
    {
      assert items[..i + 1][..i] == items[..i];
      if items[i].JObject? {
        var skier := SkierDataToHash(items[i].fields);
        rs := rs + [skier];
      }
      i := i + 1;
    }
    assert items[..i] == items;
  }

  /**
   * The retriever: the store, the two form tokens of the archive's search form, and
   * the number of results-page requests sent and answered in the current fetch.
   */
  class SkiDataRetriever {
    var data: Database
    const postParameters: array<string>
    var sentRequests: int
    var receivedRequests: int
    const anonymous: bool
    /** The hexadecimal MD5 digest of a text, used to hash names in anonymous mode. */
    const md5Hex: string -> string

    ghost predicate Valid()
    {
      postParameters.Length == 2
    }

    constructor (anonymous: bool, md5Hex: string -> string)
      ensures Valid() && fresh(postParameters)
      ensures this.anonymous == anonymous && this.md5Hex == md5Hex
      ensures data == FreshDatabase(anonymous)
      ensures postParameters[..] == ["", ""]
      ensures sentRequests == 0 && receivedRequests == 0
    {
      this.anonymous := anonymous;
      this.md5Hex := md5Hex;
      data := FreshDatabase(anonymous);
      postParameters := new string[2](_ => "");
      sentRequests := 0;
      receivedRequests := 0;
      new;
      assert postParameters[..] == [postParameters[0], postParameters[1]];
    }

    /**
     * One year's data: for distance "" every array-valued distance of the year,
     * otherwise that distance alone if it is an array; nothing for a year not stored.
     */
    method GetSkiingData(year: int, distance: string) returns (result: SkiingData)
      ensures result == SkiingDataOf(data, year, distance)
    {
      result := map[];
      var yearString := IntToString(year);
      if yearString in data && data[yearString].JObject? {
        var temp := data[yearString].fields;
        var keys := [distance];
        if distance == "" {
          keys := OrderedKeys(temp.Keys);
        }
        var i := 0;
        while i < |keys|
          invariant 0 <= i <= |keys|
          invariant result == ArrayFieldsOf(temp, keys[..i])
        {
          var key := keys[i];
          assert keys[..i + 1][..i] == keys[..i];
          if key in temp && temp[key].JArray? {
            var records := DistanceDataToVector(temp[key].items);
            result := result[key := records];
          }
          i := i + 1;
        }
        assert keys[..i] == keys;
        if distance == "" {
          SortedKeysEnumerates(temp.Keys);
        }
        ArrayFieldsOfLookup(data, year, keys, distance);
      }
    }

    /**
     * Starting: with no readable cache file the fetch begins; a cache file replaces
     * the store and is fetched again when stale, otherwise the retriever is ready.
     */
    method StartSkiingDataRetrieval(cached: Option<Database>) returns (effects: seq<Event>)
      requires Valid()
      modifies this
      ensures Valid()
      ensures sentRequests == old(sentRequests) && receivedRequests == old(receivedRequests)
      ensures cached.None? ==> data == old(data) && effects == [GetRequest]
      ensures cached.Some? && Stale(cached.value, anonymous) ==>
                data == FreshDatabase(anonymous) && effects == [RemoveCacheFile, GetRequest]
      ensures cached.Some? && !Stale(cached.value, anonymous) ==>
                data == cached.value && effects == [DataReady(0, 0)]
    {
      if cached.None? {
        effects := [GetRequest];
      } else {
        data := cached.value;
        if Stale(data, anonymous) {
          effects := UpdateDataBase(true);
        } else {
          effects := [DataReady(0, 0)];
        }
      }
    }

    /** Refetching: the cache file goes, the store is reset to the flag alone, the fetch begins. */
    method UpdateDataBase(cacheExists: bool) returns (effects: seq<Event>)
      requires Valid()
      modifies this
      ensures Valid()
      ensures data == FreshDatabase(anonymous)
      ensures sentRequests == old(sentRequests) && receivedRequests == old(receivedRequests)
      ensures effects == (if cacheExists then [RemoveCacheFile] else []) + [GetRequest]
    {
      effects := [];
      if cacheExists {
        effects := [RemoveCacheFile];
      }
      data := FreshDatabase(anonymous);
      effects := effects + [GetRequest];
    }

    /**
     * A reply: an entry page sets the form tokens and, when both are non-empty,
     * starts the per-year requests; a results page stores its year, counts the
     * reply, reports progress and, on the last outstanding reply, saves the cache
     * file, resets the counters and reports ready. Other replies change nothing.
     */
    method HandleRequestReply(reply: Reply, currentYear: int) returns (effects: seq<Event>)
      requires Valid()
      modifies this, postParameters
      ensures Valid()
      ensures reply.operation != GetOperation && reply.operation != PostOperation ==>
                data == old(data) && postParameters[..] == old(postParameters[..]) &&
                sentRequests == old(sentRequests) && receivedRequests == old(receivedRequests) &&
                effects == []
      ensures reply.operation == GetOperation ==>
                data == old(data) && receivedRequests == old(receivedRequests) &&
                postParameters[..] == NewParameters(old(postParameters[..]), reply.body)
      ensures reply.operation == GetOperation && postParameters[0] != "" && postParameters[1] != "" ==>
                sentRequests == old(sentRequests) + RequestCount(currentYear) &&
                |effects| == RequestCount(currentYear) + 1 && effects[0] == ParametersReady &&
                forall i :: 1 <= i < |effects| ==>
                  effects[i] == PostRequest(StartYear + i - 1, postParameters[0], postParameters[1])
      ensures reply.operation == GetOperation && (postParameters[0] == "" || postParameters[1] == "") ==>
                sentRequests == old(sentRequests) && effects == []
      ensures reply.operation == PostOperation ==>
                data == StorePage(old(data), ParsePage(reply.body, anonymous, md5Hex)) &&
                postParameters[..] == old(postParameters[..]) &&
                (sentRequests, receivedRequests) == AfterPostReply(old(sentRequests), old(receivedRequests)) &&
                effects == [DataReady(old(receivedRequests) + 1, old(sentRequests))] +
                           (if old(sentRequests) == old(receivedRequests) + 1
                            then [SaveCacheFile(data), DataReady(0, 0)] else [])
    {
      effects := [];
      if reply.operation == GetOperation {
        HandleGetReply(reply.body);
        if postParameters[0] != "" && postParameters[1] != "" {
          var posts := GetSkiDataFromWebServer(currentYear);
          effects := [ParametersReady] + posts;
        }
      } else if reply.operation == PostOperation {
        HandlePostReply(reply.body);
        receivedRequests := receivedRequests + 1;
        effects := [DataReady(receivedRequests, sentRequests)];
        if sentRequests == receivedRequests {
          effects := effects + [SaveCacheFile(data)];
          receivedRequests := 0;
          sentRequests := 0;
          effects := effects + [DataReady(0, 0)];
        }
      }
    }

    /** One results-page request per year from 1974 to the current year, each counted as sent. */
    method GetSkiDataFromWebServer(currentYear: int) returns (effects: seq<Event>)
      requires Valid()
      modifies this
      ensures Valid()
      ensures data == old(data) && receivedRequests == old(receivedRequests)
      ensures sentRequests == old(sentRequests) + RequestCount(currentYear)
      ensures |effects| == RequestCount(currentYear)
      ensures forall i :: 0 <= i < |effects| ==>
                effects[i] == PostRequest(StartYear + i, postParameters[0], postParameters[1])
    {
      effects := [];
      var i := StartYear;
      while i <= currentYear
        invariant if currentYear >= StartYear then StartYear <= i <= currentYear + 1 else i == StartYear
        invariant |effects| == i - StartYear
        invariant sentRequests == old(sentRequests) + (i - StartYear)
        invariant data == old(data) && receivedRequests == old(receivedRequests)
        invariant forall j :: 0 <= j < |effects| ==>
                    effects[j] == PostRequest(StartYear + j, postParameters[0], postParameters[1])
      {
        effects := effects + [PostRequest(i, postParameters[0], postParameters[1])];
        sentRequests := sentRequests + 1;
        i := i + 1;
      }
    }

    /** The form tokens of an entry page replace the stored ones. */
    method HandleGetReply(page: string)
      requires Valid()
      modifies postParameters
      ensures postParameters[..] == NewParameters(old(postParameters[..]), page)
    {
      var tokens := ExtractTokens(page);
      if tokens.Some? {
        postParameters[0] := tokens.value[0];
        postParameters[1] := tokens.value[1];
        assert postParameters[..] == [tokens.value[0], tokens.value[1]];
      }
    }

    /** A results page's year object replaces that year in the store. */
    method HandlePostReply(page: string)
      modifies this
      ensures data == StorePage(old(data), ParsePage(page, anonymous, md5Hex))
      ensures sentRequests == old(sentRequests) && receivedRequests == old(receivedRequests)
    {
      var parsed := ScrapePage(page, anonymous, md5Hex);
      if parsed.Some? {
        data := data[parsed.value.year := YearToJson(parsed.value.buckets)];
      }
    }
  }
}
