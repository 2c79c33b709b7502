/**
 * The HTTP handler of the price API. A read request carries a comma-separated
 * list of item codes in the query parameter `items_codes`; it is validated
 * (at least one code, at most ten, none longer than five bytes), handed to the
 * price service, and answered with the prices, a not-found error or an
 * internal error. A write request carries one code and price as JSON and is
 * answered with no content, a format error or an internal error.
 *
 * The HTTP framework is reduced to what the handler observes: the query
 * parameters as a map, the outcome of binding the JSON body, and the status
 * and body of the response.
 */
module Handlers {
  import opened Wrappers
  import opened GoStrings
  import opened Errors
  import opened PriceMaps
  import opened PriceService

  const MaxItemsLength: nat := 5
  const MaxItems: nat := 10
  const ItemsCodesParam: string := "items_codes"

  const StatusOK: int := 200
  const StatusNoContent: int := 204
  const StatusBadRequest: int := 400
  const StatusNotFound: int := 404
  const StatusInternalServerError: int := 500

  /** One entry of the read response. */
  datatype Item = Item(code: string, price: Price)

  /** The JSON body a response carries. */
  datatype Body = ErrorBody(error: CustomError) | PricesBody(items: seq<Item>) | NoBody

  datatype Response = Response(status: int, body: Body)

  /** The body of a write request, as the JSON decoder fills it. */
  datatype PriceCreate = PriceCreate(itemCode: string, itemPrice: Price)

  /** What `validateItems` returns: the split codes and the validation error, if any. */
  datatype Validation = Validation(codes: seq<string>, err: Option<CustomError>)

  // ---------------------------------------------------------------------------
  // Validation of a read request

  /** The codes longer than `MaxItemsLength` bytes, in their order of appearance (defined from the end). */
  function InvalidOf(items: seq<string>): seq<string>
    decreases |items|
  {
    if |items| == 0 then []
    else
      var last := items[|items| - 1];
      InvalidOf(items[..|items| - 1]) + (if ByteLength(last) > MaxItemsLength then [last] else [])
  }

  /** `getInvalidItems`: one pass over the codes, appending each one that is too long. */
  method GetInvalidItems(items: seq<string>) returns (res: seq<string>)
    ensures res == InvalidOf(items)
  {
    res := [];
    for i := 0 to |items|
      invariant res == InvalidOf(items[..i])
    {
      assert items[..i + 1][..i] == items[..i];
      if ByteLength(items[i]) > MaxItemsLength {
        res := res + [items[i]];
      }
    }
    assert items[..|items|] == items;
  }

  /** A code is reported exactly when it is requested and too long. */
  lemma {:induction false} InvalidOfMembers(items: seq<string>)
    ensures forall c :: c in InvalidOf(items) <==> c in items && ByteLength(c) > MaxItemsLength
    ensures InvalidOf(items) == [] <==> forall c :: c in items ==> ByteLength(c) <= MaxItemsLength
    decreases |items|
  {
    if |items| > 0 {
      var init := items[..|items| - 1];
      InvalidOfMembers(init);
      assert items == init + [items[|items| - 1]];
    }
    if InvalidOf(items) != [] {
      assert InvalidOf(items)[0] in InvalidOf(items);
    }
  }

  /** The report keeps the request's order: reporting a concatenation concatenates the reports. */
  lemma {:induction false} InvalidOfAppend(a: seq<string>, b: seq<string>)
    ensures InvalidOf(a + b) == InvalidOf(a) + InvalidOf(b)
    decreases |b|
  {
    if |b| > 0 {
      var init := b[..|b| - 1];
      InvalidOfAppend(a, init);
      assert (a + b)[..|a + b| - 1] == a + init;
      assert (a + b)[|a + b| - 1] == b[|b| - 1];
    } else {
      assert a + b == a;
    }
  }

  /**
   * `validateItems`: split on commas; an empty string asks for at least one
   * code (splitting never yields zero pieces, so the second test of that
   * branch never fires); more than `MaxItems` pieces are too many, checked
   * before the lengths; then every too-long code is listed in the error.
   */
  function ValidateItems(itemsString: string): (v: Validation)
    ensures v.codes == Split(itemsString, ',')
    ensures v.err.Some? ==> v.err.value.code == BadRequestCode
  {
    var itemsCodes := Split(itemsString, ',');
    var totalItems := |itemsCodes|;
    if ByteLength(itemsString) == 0 || totalItems == 0 then
      Validation(itemsCodes, Some(AtLeastOneItem))
    else if totalItems > MaxItems then
      Validation(itemsCodes, Some(MaxItemsExceded))
    else
      var invalids := InvalidOf(itemsCodes);
      if |invalids| > 0 then
        InvalidItemsMessage(invalids);
        Validation(itemsCodes, Some(InvalidItems.WithParams(invalids)))
      else
        Validation(itemsCodes, None)
  }

  /** The error message of the invalid-items error never reads like the at-least-one error. */
  lemma InvalidItemsNotAtLeastOne(joined: string)
    ensures CustomError(BadRequestCode, "Invalid items: " + joined + ".") != AtLeastOneItem
  {
    assert ("Invalid items: " + joined + ".")[0] == 'I';
    assert AtLeastOneItem.message[0] == 'Y';
  }

  /** `len` of a string is zero exactly for the empty string. */
  lemma EmptyIffNoBytes(s: string)
    ensures ByteLength(s) == 0 <==> s == ""
  {
  }

  /** The request is refused for want of codes exactly when the parameter is empty. */
  lemma ValidateEmpty(s: string)
    ensures ValidateItems(s).err == Some(AtLeastOneItem) <==> s == ""
  {
    EmptyIffNoBytes(s);
    var codes := Split(s, ',');
    if s != "" && |codes| <= MaxItems && InvalidOf(codes) != [] {
      InvalidItemsMessage(InvalidOf(codes));
      InvalidItemsNotAtLeastOne(Join(InvalidOf(codes), ","));
    }
  }

  /**
   * A non-empty parameter is refused as too many codes exactly when it holds
   * `MaxItems` commas or more, whatever the lengths of the codes.
   */
  lemma ValidateTooMany(s: string)
    requires s != ""
    ensures ValidateItems(s).err == Some(MaxItemsExceded) <==> Occurrences(s, ',') >= MaxItems
  {
    EmptyIffNoBytes(s);
    SplitCount(s, ',');
    var codes := Split(s, ',');
    if |codes| <= MaxItems && InvalidOf(codes) != [] {
      InvalidItemsMessage(InvalidOf(codes));
      assert ("Invalid items: " + Join(InvalidOf(codes), ",") + ".")[0] == 'I';
      assert MaxItemsExceded.message[0] == 'M';
    }
  }

  /** Otherwise the error names exactly the too-long codes, comma-joined, in request order. */
  lemma ValidateNamesInvalid(s: string)
    requires s != "" && Occurrences(s, ',') < MaxItems
    requires exists c :: c in Split(s, ',') && ByteLength(c) > MaxItemsLength
    ensures var invalids := InvalidOf(Split(s, ','));
      invalids != [] &&
      ValidateItems(s).err == Some(CustomError(BadRequestCode, "Invalid items: " + Join(invalids, ",") + "."))
  {
    EmptyIffNoBytes(s);
    SplitCount(s, ',');
    var codes := Split(s, ',');
    InvalidOfMembers(codes);
    InvalidItemsMessage(InvalidOf(codes));
  }

  /**
   * A request passes exactly when it is non-empty, has at most `MaxItems`
   * codes and none of them is longer than `MaxItemsLength` bytes.
   */
  lemma ValidateAccepts(s: string)
    ensures ValidateItems(s).err == None <==>
      s != "" && Occurrences(s, ',') < MaxItems &&
      forall c :: c in Split(s, ',') ==> ByteLength(c) <= MaxItemsLength
  {
    EmptyIffNoBytes(s);
    SplitCount(s, ',');
    InvalidOfMembers(Split(s, ','));
  }

  /** The codes handed on are the parameter's pieces: joined with commas, they give it back. */
  lemma ValidatedCodesRejoin(s: string)
    ensures Join(ValidateItems(s).codes, ",") == s
    ensures forall i :: 0 <= i < |ValidateItems(s).codes| ==> ',' !in ValidateItems(s).codes[i]
  {
    JoinSplit(s, ',');
    SplitPiecesFree(s, ',');
  }

  // ---------------------------------------------------------------------------
  // The read response

  /** The map a list of items describes, later items overriding earlier ones (defined from the end). */
  function ToMap(items: seq<Item>): map<string, Price>
    decreases |items|
  {
    if |items| == 0 then map[]
    else
      var last := items[|items| - 1];
      ToMap(items[..|items| - 1])[last.code := last.price]
  }

  /** No two items of a response share a code. */
  predicate DistinctCodes(items: seq<Item>)
  {
    forall i, j :: 0 <= i < j < |items| ==> items[i].code != items[j].code
  }

  /** The keys of the described map are the items' codes. */
  lemma {:induction false} ToMapKeys(items: seq<Item>)
    ensures forall k :: k in ToMap(items) <==> exists i :: 0 <= i < |items| && items[i].code == k
    decreases |items|
  {
    if |items| > 0 {
      var init := items[..|items| - 1];
      ToMapKeys(init);
      assert ToMap(items) == ToMap(init)[items[|items| - 1].code := items[|items| - 1].price];
      forall k | k in ToMap(items)
        ensures exists i :: 0 <= i < |items| && items[i].code == k
      {
        if k != items[|items| - 1].code {
          var i :| 0 <= i < |init| && init[i].code == k;
          assert items[i] == init[i];
        }
      }
      forall i | 0 <= i < |items|
        ensures items[i].code in ToMap(items)
      {
        if i < |init| {
          assert init[i] == items[i];
        }
      }
    }
  }

  /** With distinct codes, each item's price is the described map's value at its code. */
  lemma {:induction false} ToMapValues(items: seq<Item>)
    requires DistinctCodes(items)
    ensures forall i :: 0 <= i < |items| ==>
      items[i].code in ToMap(items) && ToMap(items)[items[i].code] == items[i].price
    ensures |ToMap(items)| == |items|
    decreases |items|
  {
    if |items| > 0 {
      var init := items[..|items| - 1];
      var last := items[|items| - 1];
      assert DistinctCodes(init) by {
        forall i, j | 0 <= i < j < |init|
          ensures init[i].code != init[j].code
        {
          assert init[i] == items[i] && init[j] == items[j];
        }
      }
      ToMapValues(init);
      ToMapKeys(init);
      forall i | 0 <= i < |init|
        ensures init[i].code != last.code
      {
        assert init[i] == items[i];
      }
      assert last.code !in ToMap(init);
      assert ToMap(items) == ToMap(init)[last.code := last.price];
      forall i | 0 <= i < |items|
        ensures items[i].code in ToMap(items) && ToMap(items)[items[i].code] == items[i].price
      {
        if i < |init| {
          assert items[i] == init[i];
        }
      }
    }
  }

  /**
   * A response with distinct codes describing `m` has one item per entry of
   * `m`, each with the entry's code and price, and every entry has an item.
   */
  lemma ResponseMatches(items: seq<Item>, m: map<string, Price>)
    requires DistinctCodes(items) && ToMap(items) == m
    ensures |items| == |m|
    ensures forall i :: 0 <= i < |items| ==> items[i].code in m && m[items[i].code] == items[i].price
    ensures forall k :: k in m ==> exists i :: 0 <= i < |items| && items[i] == Item(k, m[k])
  {
    ToMapKeys(items);
    ToMapValues(items);
    forall k | k in m
      ensures exists i :: 0 <= i < |items| && items[i] == Item(k, m[k])
    {
      var i :| 0 <= i < |items| && items[i].code == k;
      assert items[i] == Item(k, m[k]);
    }
  }

  /** The entries of `m` at the keys `keys`. */
  function Restrict(m: map<string, Price>, keys: set<string>): map<string, Price>
  {
    map k | k in m.Keys * keys :: m[k]
  }

  /** Appending the item of a key not yet covered covers that key too. */
  lemma RespondStep(items: seq<Item>, m: map<string, Price>, done: set<string>, code: string)
    requires done <= m.Keys && code in m && code !in done
    requires DistinctCodes(items) && ToMap(items) == Restrict(m, done)
    requires forall i :: 0 <= i < |items| ==> items[i].code in done
    ensures var after := items + [Item(code, m[code])];
      DistinctCodes(after) && ToMap(after) == Restrict(m, done + {code})
      && forall i :: 0 <= i < |after| ==> after[i].code in done + {code}
  {
    var after := items + [Item(code, m[code])];
    assert after[..|after| - 1] == items;
    assert Restrict(m, done + {code}) == Restrict(m, done)[code := m[code]];
  }

  /**
   * `buildPricesResponse`: one item per map entry, appended while ranging over
   * the map, in an order the map does not fix.
   */
  method BuildPricesResponse(itemsPrices: map<string, Price>) returns (response: seq<Item>)
    ensures DistinctCodes(response) && ToMap(response) == itemsPrices
    ensures |response| == |itemsPrices|
  {
    response := [];
    var rest := itemsPrices.Keys;
    ghost var done: set<string> := {};
    while rest != {}
      invariant rest <= itemsPrices.Keys && done == itemsPrices.Keys - rest
      invariant DistinctCodes(response)
      invariant forall i :: 0 <= i < |response| ==> response[i].code in done
      invariant ToMap(response) == Restrict(itemsPrices, done)
      invariant |response| == |done|
      decreases |rest|
    {
      var code :| code in rest;
      RespondStep(response, itemsPrices, done, code);
      response := response + [Item(code, itemsPrices[code])];
      rest := rest - {code};
      done := done + {code};
    }
    assert Restrict(itemsPrices, done) == itemsPrices;
  }

  // ---------------------------------------------------------------------------
  // Status decisions

  /**
   * The answer to a read the service failed: a not-found error goes out as
   * 404 carrying that error; any other error goes out as 500 carrying the
   * generic internal error, whatever the service said.
   */
  function FailedRead(err: CustomError): (r: Response)
    ensures r.status == StatusNotFound <==> err.code == NotFoundCode
    ensures r.status == StatusNotFound || r.status == StatusInternalServerError
    ensures r.status == StatusNotFound ==> r.body == ErrorBody(err)
    ensures r.status == StatusInternalServerError ==> r.body == ErrorBody(InternalError)
  {
    if err.code == NotFoundCode then Response(StatusNotFound, ErrorBody(err))
    else Response(StatusInternalServerError, ErrorBody(InternalError))
  }

  /** `c.Query(key)`: the parameter's value, or the empty string when it is absent. */
  function Query(query: map<string, string>, key: string): string
  {
    if key in query then query[key] else ""
  }

  /**
   * `c.BindJSON` on the write request: the body decoded (`None` when it is not
   * JSON of that shape), then the struct's binding tags: the code is required
   * and at most five characters, the price is required, i.e. not zero.
   */
  predicate Binds(request: Option<PriceCreate>)
  {
    request.Some? && request.value.itemCode != "" && |request.value.itemCode| <= 5
    && request.value.itemPrice != 0.0
  }

  /**
   * The two limits on a code count differently: binding counts characters,
   * validation counts bytes. A three-character code of two-byte characters
   * can be written but is refused when read.
   */
  lemma WritableCodeNotReadable()
    ensures var code := "\U{00E9}\U{00E9}\U{00E9}";
      Binds(Some(PriceCreate(code, 1.0))) &&
      ValidateItems(code).err == Some(CustomError(BadRequestCode, "Invalid items: " + code + "."))
  {
    var code := "\U{00E9}\U{00E9}\U{00E9}";
    assert ByteLength(code) == 6;
    SplitFree(code, ',');
    assert InvalidOf([code]) == [code];
    assert Join([code], ",") == code;
    InvalidItemsMessage([code]);
  }

  // ---------------------------------------------------------------------------
  // The handler

  class PricesHandler {
    const basePath: string
    const pricesPath: string
    const service: Service

    /** `StartHandler`: the routes and a service over the given storage and cache contents. */
    constructor (store: map<string, Price>, cache: map<string, Price>)
      ensures basePath == "/api/items" && pricesPath == "/prices"
      ensures fresh(service)
      ensures service.store == store && service.cache == cache && service.calls == []
    {
      basePath := "/api/items";
      pricesPath := "/prices";
      service := new Service(store, cache);
    }

    /**
     * `GetPricesFor`: a refused request is answered 400 with the validation
     * error and reaches no collaborator; otherwise the service's read decides
     * the answer: 200 with one item per price, or the failed-read answer.
     */
    method GetPricesFor(query: map<string, string>, cacheFault: bool, storeFault: bool) returns (r: Response)
      modifies service
      ensures service.store == old(service.store)
      ensures var v := ValidateItems(Query(query, ItemsCodesParam));
        v.err.Some? ==>
          r == Response(StatusBadRequest, ErrorBody(v.err.value))
          && service.cache == old(service.cache) && service.calls == old(service.calls)
      ensures var v := ValidateItems(Query(query, ItemsCodesParam));
        v.err.None? ==>
          var o := Read(old(service.cache), service.store, old(service.calls), v.codes, cacheFault, storeFault);
          service.cache == o.cache && service.calls == o.calls
          && (o.err.Some? ==> r == FailedRead(o.err.value))
          && (o.err.None? ==> r.status == StatusOK && r.body.PricesBody?
                              && DistinctCodes(r.body.items) && ToMap(r.body.items) == o.prices)
    {
      var itemsStr := Query(query, ItemsCodesParam);
      var v := ValidateItems(itemsStr);
      if v.err.Some? {
        return Response(StatusBadRequest, ErrorBody(v.err.value));
      }
      var itemsPrices, err := service.GetPricesFor(v.codes, cacheFault, storeFault);
      if err.Some? {
        return FailedRead(err.value);
      }
      var items := BuildPricesResponse(itemsPrices);
      return Response(StatusOK, PricesBody(items));
    }

    /**
     * `SetPricesFor`: a body that does not bind is answered 400 with the
     * format error and reaches no collaborator; otherwise the service's
     * write-through decides: 204 with no body, or 500 with the internal error.
     */
    method SetPricesFor(request: Option<PriceCreate>, storeFault: bool) returns (r: Response)
      modifies service
      ensures !Binds(request) ==>
        r == Response(StatusBadRequest, ErrorBody(InvalidFormat))
        && service.store == old(service.store) && service.cache == old(service.cache)
        && service.calls == old(service.calls)
      ensures Binds(request) && storeFault ==>
        var p := request.value;
        r == Response(StatusInternalServerError, ErrorBody(InternalError))
        && service.store == old(service.store) && service.cache == old(service.cache)
        && service.calls == old(service.calls) + [StoreSet(p.itemCode, p.itemPrice)]
      ensures Binds(request) && !storeFault ==>
        var p := request.value;
        r == Response(StatusNoContent, NoBody)
        && service.store == old(service.store)[p.itemCode := p.itemPrice]
        && service.cache == old(service.cache)[p.itemCode := p.itemPrice]
        && service.calls == old(service.calls) + [StoreSet(p.itemCode, p.itemPrice),
                                                  CacheSet(map[p.itemCode := p.itemPrice])]
    {
      if !Binds(request) {
        return Response(StatusBadRequest, ErrorBody(InvalidFormat));
      }
      var p := request.value;
      var err := service.SetPriceFor(p.itemCode, p.itemPrice, storeFault);
      if err.Some? {
        return Response(StatusInternalServerError, ErrorBody(InternalError));
      }
      return Response(StatusNoContent, NoBody);
    }
  }

  // ---------------------------------------------------------------------------
  // The handler's documented requests

  /** A single code without commas that is too long is refused, named in the error. */
  lemma ValidateOneLong(code: string)
    requires ',' !in code && ByteLength(code) > MaxItemsLength
    ensures ValidateItems(code)
         == Validation([code], Some(CustomError(BadRequestCode, "Invalid items: " + code + ".")))
  {
    SplitFree(code, ',');
    assert [code][..0] == [];
    assert InvalidOf([code]) == [code];
    assert Join([code], ",") == code;
    InvalidItemsMessage([code]);
    EmptyIffNoBytes(code);
  }

  /** Seven letters are one code, too long, and named in the error. */
  lemma ValidateSevenLong()
    ensures ValidateItems("ppppppp")
         == Validation(["ppppppp"], Some(CustomError(BadRequestCode, "Invalid items: ppppppp.")))
  {
    SevenLetters("ppppppp");
    ValidateOneLong("ppppppp");
  }

  lemma SevenLetters(code: string)
    requires code == "ppppppp"
    ensures ',' !in code && ByteLength(code) == 7
    ensures "Invalid items: " + code + "." == "Invalid items: ppppppp."
  {
    assert forall i :: 0 <= i < |code| ==> code[i] == 'p';
    AsciiByteLength(code);
    var m := "Invalid items: " + code + ".";
    assert |m| == 23;
    assert forall i :: 0 <= i < 23 ==> m[i] == "Invalid items: ppppppp."[i];
  }

  /** Eleven one-letter codes are too many, although each is short. */
  lemma ValidateElevenCodes()
    ensures ValidateItems("q,w,e,r,t,y,u,i,o,p,a").err == Some(MaxItemsExceded)
  {
    ElevenCodes("q,w,e,r,t,y,u,i,o,p,a");
    ValidateTooMany("q,w,e,r,t,y,u,i,o,p,a");
  }

  lemma ElevenCodes(s: string)
    requires s == "q,w,e,r,t,y,u,i,o,p,a"
    ensures s != "" && Occurrences(s, ',') == 10
  {
    assert |s| == 21;
    assert forall i :: 0 <= i < |s| ==> (s[i] == ',' <==> i % 2 == 1);
    AlternatingCommas(s);
  }

  /** A string of one-character codes between commas holds one comma fewer than codes. */
  lemma {:induction false} AlternatingCommas(s: string)
    requires |s| % 2 == 1
    requires forall i :: 0 <= i < |s| ==> (s[i] == ',' <==> i % 2 == 1)
    ensures Occurrences(s, ',') == |s| / 2
    decreases |s|
  {
    if |s| > 1 {
      var rest := s[2..];
      assert forall i :: 0 <= i < |rest| ==> rest[i] == s[i + 2];
      AlternatingCommas(rest);
      assert s[1..][1..] == rest;
      assert s[0] != ',' && s[1] == ',';
    }
  }

  /** A request without the parameter has no codes. */
  lemma ValidateNoParameter()
    ensures ValidateItems(Query(map["item" := ""], ItemsCodesParam)).err == Some(AtLeastOneItem)
  {
    assert Query(map["item" := ""], ItemsCodesParam) == "";
    ValidateEmpty("");
  }

  /**
   * Codes joined with commas pass when there are at most `MaxItems` of them,
   * none holds a comma or is too long, and the parameter is not empty; the
   * codes handed on are exactly those codes.
   */
  lemma ValidateJoined(parts: seq<string>)
    requires 1 <= |parts| <= MaxItems && Join(parts, ",") != ""
    requires forall i :: 0 <= i < |parts| ==> ',' !in parts[i] && ByteLength(parts[i]) <= MaxItemsLength
    ensures ValidateItems(Join(parts, ",")) == Validation(parts, None)
  {
    SplitJoin(parts, ',');
    EmptyIffNoBytes(Join(parts, ","));
    InvalidOfMembers(parts);
  }

  /** Empty pieces between commas are codes like any other and pass. */
  lemma ValidateEmptySegments()
    ensures ValidateItems("a,,b") == Validation(["a", "", "b"], None)
  {
    var parts := ["a", "", "b"];
    ThreePieces(parts);
    ThreeShortPieces(parts);
    ValidateJoined(parts);
  }

  lemma ThreePieces(parts: seq<string>)
    requires parts == ["a", "", "b"]
    ensures Join(parts, ",") == "a,,b"
  {
    JoinThree("a", "", "b", ",");
    var joined := "a" + "," + "" + "," + "b";
    assert |joined| == 4;
    assert forall i :: 0 <= i < 4 ==> joined[i] == "a,,b"[i];
  }

  lemma ThreeShortPieces(parts: seq<string>)
    requires parts == ["a", "", "b"]
    ensures forall i :: 0 <= i < |parts| ==> ',' !in parts[i] && ByteLength(parts[i]) <= MaxItemsLength
  {
    assert ByteLength("a") == 1 && ByteLength("b") == 1;
  }

  /** Three parts joined: the separator between the first and second and between the second and third. */
  lemma JoinThree(x: string, y: string, z: string, sep: string)
    ensures Join([x, y, z], sep) == x + sep + y + sep + z
  {
    JoinCons(y, [z], sep);
    JoinCons(x, [y, z], sep);
    assert [x] + [y, z] == [x, y, z] && [y] + [z] == [y, z];
  }

  /** A one-entry answer becomes a one-item response. */
  lemma OneItemResponse(items: seq<Item>, code: string, price: Price)
    requires DistinctCodes(items) && ToMap(items) == map[code := price]
    ensures items == [Item(code, price)]
  {
    ResponseMatches(items, map[code := price]);
    var i :| 0 <= i < |items| && items[i] == Item(code, price);
  }

  /** With both sources empty, a read of one code is not found and names the code. */
  lemma NotFoundOne(code: string)
    ensures Read(map[], map[], [], [code], false, false).err
         == Some(CustomError(NotFoundCode, "Items not found: " + code + "."))
  {
    var codes := [code];
    assert code in codes;
    MissingOfNone(codes, map[]);
    MissingOfNone(MissingOf(codes, map[]), map[]);
    ReadReportsUnresolved(map[], map[], codes, false, false);
    assert Join(codes, ",") == code;
  }

  lemma NotFoundP2Message(code: string)
    requires code == "p2"
    ensures "Items not found: " + code + "." == "Items not found: p2."
  {
    var m := "Items not found: " + code + ".";
    assert |m| == 20;
    assert forall i :: 0 <= i < 20 ==> m[i] == "Items not found: p2."[i];
  }

  /** Each refused read is answered 400 with the error that validation chose. */
  method RefusedReads() returns (invalid: Response, missing: Response, tooMany: Response)
    ensures invalid == Response(StatusBadRequest, ErrorBody(CustomError(BadRequestCode, "Invalid items: ppppppp.")))
    ensures missing == Response(StatusBadRequest, ErrorBody(AtLeastOneItem))
    ensures tooMany == Response(StatusBadRequest, ErrorBody(MaxItemsExceded))
  {
    var handler := new PricesHandler(map[], map[]);
    ValidateSevenLong();
    ValidateNoParameter();
    ValidateElevenCodes();
    invalid := handler.GetPricesFor(map[ItemsCodesParam := "ppppppp"], false, false);
    missing := handler.GetPricesFor(map["item" := ""], false, false);
    tooMany := handler.GetPricesFor(map[ItemsCodesParam := "q,w,e,r,t,y,u,i,o,p,a"], false, false);
  }

  /** A cached price is answered 200 with that one item. */
  method ReturnPrices() returns (r: Response)
    ensures r == Response(StatusOK, PricesBody([Item("p2", 10.0)]))
  {
    var cache := map["p2" := 10.0];
    var handler := new PricesHandler(map[], cache);
    SplitFree("p2", ',');
    InvalidOfMembers(["p2"]);
    assert ByteLength("p2") == 2;
    ReadFastPath(cache, map[], ["p2"], false);
    r := handler.GetPricesFor(map[ItemsCodesParam := "p2"], false, false);
    ghost var o := Read(cache, map[], [], ["p2"], false, false);
    assert o.prices == cache;
    OneItemResponse(r.body.items, "p2", 10.0);
  }

  /** A code neither source knows is answered 404 with the not-found error naming it. */
  method NotFoundAnswer() returns (r: Response)
    ensures r == Response(StatusNotFound, ErrorBody(CustomError(NotFoundCode, "Items not found: p2.")))
  {
    var handler := new PricesHandler(map[], map[]);
    SplitFree("p2", ',');
    InvalidOfMembers(["p2"]);
    assert ByteLength("p2") == 2;
    NotFoundOne("p2");
    NotFoundP2Message("p2");
    r := handler.GetPricesFor(map[ItemsCodesParam := "p2"], false, false);
  }

  /** A failing storage is answered 500 with the internal error. */
  method InternalErrAnswer() returns (r: Response)
    ensures r == Response(StatusInternalServerError, ErrorBody(InternalError))
  {
    var handler := new PricesHandler(map[], map[]);
    SplitFree("p1", ',');
    InvalidOfMembers(["p1"]);
    assert ByteLength("p1") == 2;
    assert "p1" in ["p1"];
    MissingOfNone(["p1"], map[]);
    ReadStoreFailure(map[], map[], ["p1"], false);
    r := handler.GetPricesFor(map[ItemsCodesParam := "p1"], false, true);
  }

  /** The three answers to a write: a malformed body, a failing storage, a stored price. */
  method WriteAnswers() returns (badFormat: Response, failed: Response, stored: Response)
    ensures badFormat == Response(StatusBadRequest, ErrorBody(InvalidFormat))
    ensures failed == Response(StatusInternalServerError, ErrorBody(InternalError))
    ensures stored == Response(StatusNoContent, NoBody)
  {
    var handler := new PricesHandler(map[], map[]);
    badFormat := handler.SetPricesFor(None, false);
    failed := handler.SetPricesFor(Some(PriceCreate("p14", 15.0)), true);
    stored := handler.SetPricesFor(Some(PriceCreate("p14", 15.0)), false);
  }
}
