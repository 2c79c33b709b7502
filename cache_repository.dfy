/**
 * The Redis-backed cache repository. A batch read builds the key
 * `"price:" + code` for every requested code, fetches all keys with one MGET,
 * and folds the per-key reply into the prices that parse and an ordered list of
 * failure messages. A batch write sets every entry with the repository's
 * default timeout and stops at the first set that fails.
 *
 * Redis itself is a map from keys to entries carrying an expiry instant; the
 * clock is a parameter `now`. Float parsing and formatting are abstract
 * functions, and whether the whole MGET or a particular SET fails is an input.
 */
module CacheRepository {
  import opened Wrappers
  import opened GoStrings
  import opened PriceMaps

  /** `settings.Redis.PriceKey`: the key template of a cached price. */
  const PriceKey: string := "price:%s"

  const GetError: string := "Redis get error"
  const SetError: string := "Set cache error"

  /**
   * `buildPriceKey`: the code placed into the key template, spelled out;
   * `BuildPriceKeyFillsTemplate` shows it is the template's expansion.
   */
  function BuildPriceKey(code: string): (key: string)
    ensures |key| == |code| + 6 && key[..6] == "price:" && key[6..] == code
  {
    "price:" + code
  }

  /** The key is what Go's Sprintf makes of the template `PriceKey` and the code. */
  lemma BuildPriceKeyFillsTemplate(code: string)
    ensures StringVerbsOnly(PriceKey)
    ensures BuildPriceKey(code) == Sprintf(PriceKey, code)
  {
    assert PriceKey == "price:" + "%s" + "";
    SprintfOneVerb("price:", "", code);
    assert "price:" + code + "" == "price:" + code;
  }

  /** Distinct codes never share a key. */
  lemma PriceKeyInjective(a: string, b: string)
    ensures BuildPriceKey(a) == BuildPriceKey(b) ==> a == b
  {
    if BuildPriceKey(a) == BuildPriceKey(b) {
      var k := BuildPriceKey(a);
      assert ("price:" + a)[6..] == a;
      assert ("price:" + b)[6..] == b;
      assert k[6..] == a && k[6..] == b;
    }
  }

  /** The keys of a batch of codes, position by position. */
  function KeysOf(codes: seq<string>): seq<string>
  {
    seq(|codes|, i requires 0 <= i < |codes| => BuildPriceKey(codes[i]))
  }

  /** `buildPricesKeys`: one key per code, in the same order. */
  method BuildPricesKeys(codes: seq<string>) returns (keys: seq<string>)
    ensures |keys| == |codes|
    ensures forall i :: 0 <= i < |codes| ==> keys[i] == "price:" + codes[i]
    ensures keys == KeysOf(codes)
  {
    keys := [];
    var i := 0;
    while i < |codes|
      invariant 0 <= i <= |codes|
      invariant |keys| == i
      invariant forall j :: 0 <= j < i ==> keys[j] == BuildPriceKey(codes[j])
    {
      keys := keys + [BuildPriceKey(codes[i])];
      i := i + 1;
    }
  }

  /** Why one position of the reply yields no price. */
  datatype Failure = Absent(code: string) | Unparsable(code: string)

  /**
   * The message `GetPricesFor` appends for a failed position, spelled out;
   * `DescribeFillsTemplate` shows it is the expansion of the source's template.
   */
  function Describe(f: Failure): string
  {
    match f
    case Absent(c) => "Item " + c + " do not exist"
    case Unparsable(c) => "Invalid value for " + c
  }

  /** The messages are what Go's Sprintf makes of the two templates and the code. */
  lemma DescribeFillsTemplate(c: string)
    ensures StringVerbsOnly("Item %s do not exist") && StringVerbsOnly("Invalid value for %s")
    ensures Describe(Absent(c)) == Sprintf("Item %s do not exist", c)
    ensures Describe(Unparsable(c)) == Sprintf("Invalid value for %s", c)
  {
    FillsTemplate("Item ", " do not exist", "Item %s do not exist", c);
    FillsTemplate("Invalid value for ", "", "Invalid value for %s", c);
    assert "Invalid value for " + c + "" == "Invalid value for " + c;
  }

  /** A one-verb template given as a literal expands like its two halves around the verb. */
  lemma FillsTemplate(pre: string, post: string, t: string, c: string)
    requires t == pre + "%s" + post && '%' !in pre && '%' !in post
    ensures StringVerbsOnly(t) && Sprintf(t, c) == pre + c + post
  {
    SprintfOneVerb(pre, post, c);
  }

  /** A message names its failure: distinct failures are never described alike. */
  lemma DescribeInjective(f: Failure, g: Failure)
    ensures Describe(f) == Describe(g) ==> f == g
  {
    var m := Describe(f);
    if f.Absent? && g.Absent? {
      if m == Describe(g) {
        assert m[5..|m| - 13] == f.code by {
          assert m == "Item " + f.code + " do not exist";
        }
        assert m[5..|m| - 13] == g.code by {
          assert m == "Item " + g.code + " do not exist";
        }
      }
    } else if f.Unparsable? && g.Unparsable? {
      if m == Describe(g) {
        assert m[18..] == f.code by {
          assert m == "Invalid value for " + f.code;
        }
        assert m[18..] == g.code by {
          assert m == "Invalid value for " + g.code;
        }
      }
    } else if f.Absent? {
      AbsentIsNotUnparsable(f.code, g.code);
    } else {
      AbsentIsNotUnparsable(g.code, f.code);
    }
  }

  lemma AbsentIsNotUnparsable(a: string, b: string)
    ensures Describe(Absent(a)) != Describe(Unparsable(b))
  {
    assert Describe(Absent(a))[1] == 't';
    assert Describe(Unparsable(b))[1] == 'n';
  }

  /** The MGET reply: a failure of the whole command, or one optional value per key. */
  datatype MGetReply = MGetFailed | MGetValues(values: seq<Option<string>>)

  /** What position `value` of the reply, for `code`, contributes: a failure or nothing. */
  function FailureAt(code: string, value: Option<string>, parse: string -> Option<Price>): Option<Failure>
  {
    if value.None? then Some(Absent(code))
    else if parse(value.value).None? then Some(Unparsable(code))
    else None
  }

  /** The prices the reply yields: every position that parses, a later position winning. */
  function Decoded(codes: seq<string>, values: seq<Option<string>>, parse: string -> Option<Price>): map<string, Price>
    requires |values| == |codes|
    decreases |codes|
  {
    if |codes| == 0 then map[]
    else
      var n := |codes| - 1;
      var prior := Decoded(codes[..n], values[..n], parse);
      if FailureAt(codes[n], values[n], parse) == None then prior[codes[n] := parse(values[n].value).value]
      else prior
  }

  /** The failed positions of the reply, in request order. */
  function Failures(codes: seq<string>, values: seq<Option<string>>, parse: string -> Option<Price>): seq<Failure>
    requires |values| == |codes|
    decreases |codes|
  {
    if |codes| == 0 then []
    else
      var n := |codes| - 1;
      var prior := Failures(codes[..n], values[..n], parse);
      match FailureAt(codes[n], values[n], parse)
      case Some(f) => prior + [f]
      case None => prior
  }

  function Messages(fs: seq<Failure>): seq<string>
  {
    seq(|fs|, i requires 0 <= i < |fs| => Describe(fs[i]))
  }

  /** The error of a reply: none when nothing failed, else the messages comma-joined. */
  function ReplyError(codes: seq<string>, values: seq<Option<string>>, parse: string -> Option<Price>): Option<string>
    requires |values| == |codes|
  {
    var fs := Failures(codes, values, parse);
    if fs == [] then None else Some(Join(Messages(fs), ","))
  }

  /**
   * The reply fold of `GetPricesFor`: a failed MGET gives no prices and the get
   * error; otherwise every position contributes its parsed price or its message.
   */
  method DecodeReply(codes: seq<string>, reply: MGetReply, parse: string -> Option<Price>)
    returns (prices: map<string, Price>, err: Option<string>)
    requires reply.MGetValues? ==> |reply.values| == |codes|
    ensures reply.MGetFailed? ==> prices == map[] && err == Some(GetError)
    ensures reply.MGetValues? ==>
      prices == Decoded(codes, reply.values, parse) && err == ReplyError(codes, reply.values, parse)
  {
    prices := map[];
    if reply.MGetFailed? {
      return prices, Some(GetError);
    }
    var values := reply.values;
    var errorList: seq<string> := [];
    var k := 0;
    while k < |values|
      invariant 0 <= k <= |values|
      invariant prices == Decoded(codes[..k], values[..k], parse)
      invariant errorList == Messages(Failures(codes[..k], values[..k], parse))
    {
      assert codes[..k + 1][..k] == codes[..k];
      assert values[..k + 1][..k] == values[..k];
      var v := values[k];
      if v.None? {
        errorList := errorList + [Describe(Absent(codes[k]))];
      } else {
        var price := parse(v.value);
        if price.None? {
          errorList := errorList + [Describe(Unparsable(codes[k]))];
        } else {
          prices := prices[codes[k] := price.value];
        }
      }
      k := k + 1;
    }
    assert codes[..k] == codes && values[..k] == values;
    if |errorList| > 0 {
      err := Some(Join(errorList, ","));
    } else {
      err := None;
    }
  }

  /** A code has a price exactly when some position of it parses. */
  lemma {:induction false} DecodedMembers(codes: seq<string>, values: seq<Option<string>>, parse: string -> Option<Price>)
    requires |values| == |codes|
    ensures forall c :: c in Decoded(codes, values, parse) <==>
      exists k :: 0 <= k < |codes| && codes[k] == c && FailureAt(c, values[k], parse) == None
    decreases |codes|
  {
    if |codes| > 0 {
      var n := |codes| - 1;
      DecodedMembers(codes[..n], values[..n], parse);
      forall c
        ensures c in Decoded(codes, values, parse) <==>
          exists k :: 0 <= k < |codes| && codes[k] == c && FailureAt(c, values[k], parse) == None
      {
        if exists k :: 0 <= k < |codes| && codes[k] == c && FailureAt(c, values[k], parse) == None {
          var k :| 0 <= k < |codes| && codes[k] == c && FailureAt(c, values[k], parse) == None;
          if k < n {
            assert codes[..n][k] == c && values[..n][k] == values[k];
          }
        }
      }
    }
  }

  /**
   * The price of a code is the one parsed at its last position that parses; in
   * particular a code requested once gets the price parsed at its position.
   */
  lemma {:induction false} DecodedLastWins(codes: seq<string>, values: seq<Option<string>>,
                                           parse: string -> Option<Price>, k: nat)
    requires |values| == |codes|
    requires k < |codes| && FailureAt(codes[k], values[k], parse) == None
    requires forall j :: k < j < |codes| && codes[j] == codes[k] ==> FailureAt(codes[j], values[j], parse) != None
    ensures codes[k] in Decoded(codes, values, parse)
    ensures Decoded(codes, values, parse)[codes[k]] == parse(values[k].value).value
    decreases |codes|
  {
    var n := |codes| - 1;
    if k < n {
      forall j | k < j < n && codes[..n][j] == codes[..n][k]
        ensures FailureAt(codes[..n][j], values[..n][j], parse) != None
      {
        assert codes[..n][j] == codes[j] && values[..n][j] == values[j];
      }
      DecodedLastWins(codes[..n], values[..n], parse, k);
      assert codes[n] != codes[k] || FailureAt(codes[n], values[n], parse) != None;
    }
  }

  /** A failure is reported exactly when some position fails that way. */
  lemma {:induction false} FailuresMembers(codes: seq<string>, values: seq<Option<string>>, parse: string -> Option<Price>)
    requires |values| == |codes|
    ensures forall f :: f in Failures(codes, values, parse) <==>
      exists k :: 0 <= k < |codes| && FailureAt(codes[k], values[k], parse) == Some(f)
    decreases |codes|
  {
    if |codes| > 0 {
      var n := |codes| - 1;
      FailuresMembers(codes[..n], values[..n], parse);
      forall f
        ensures f in Failures(codes, values, parse) <==>
          exists k :: 0 <= k < |codes| && FailureAt(codes[k], values[k], parse) == Some(f)
      {
        if exists k :: 0 <= k < |codes| && FailureAt(codes[k], values[k], parse) == Some(f) {
          var k :| 0 <= k < |codes| && FailureAt(codes[k], values[k], parse) == Some(f);
          if k < n {
            assert codes[..n][k] == codes[k] && values[..n][k] == values[k];
          }
        }
      }
    }
  }

  /**
   * The failures keep request order: the failures of a reply split in two are
   * those of the first part followed by those of the second.
   */
  lemma {:induction false} FailuresAppend(a: seq<string>, va: seq<Option<string>>,
                                          b: seq<string>, vb: seq<Option<string>>, parse: string -> Option<Price>)
    requires |va| == |a| && |vb| == |b|
    ensures Failures(a + b, va + vb, parse) == Failures(a, va, parse) + Failures(b, vb, parse)
    decreases |b|
  {
    if |b| == 0 {
      assert a + b == a && va + vb == va;
    } else {
      var n := |b| - 1;
      var ab, vab := a + b, va + vb;
      FailuresAppend(a, va, b[..n], vb[..n], parse);
      assert ab[..|a| + n] == a + b[..n] && ab[|a| + n] == b[n];
      assert vab[..|a| + n] == va + vb[..n] && vab[|a| + n] == vb[n];
      var tail := Failures(b[..n], vb[..n], parse);
      var extra := match FailureAt(b[n], vb[n], parse) case Some(f) => [f] case None => [];
      assert Failures(b, vb, parse) == tail + extra;
      assert Failures(ab, vab, parse) == Failures(a + b[..n], va + vb[..n], parse) + extra;
    }
  }

  /** The reply is an error exactly when some position fails, missing or unparsable. */
  lemma ReplyErrorIffFailure(codes: seq<string>, values: seq<Option<string>>, parse: string -> Option<Price>)
    requires |values| == |codes|
    ensures ReplyError(codes, values, parse) == None <==>
      forall k :: 0 <= k < |codes| ==> FailureAt(codes[k], values[k], parse) == None
  {
    FailuresMembers(codes, values, parse);
    var fs := Failures(codes, values, parse);
    if fs != [] {
      assert fs[0] in fs;
    }
  }

  /** One failed position is reported by its own message alone. */
  lemma SingleFailure(code: string, value: Option<string>, parse: string -> Option<Price>)
    requires FailureAt(code, value, parse) != None
    ensures ReplyError([code], [value], parse) == Some(Describe(FailureAt(code, value, parse).value))
  {
    var f := FailureAt(code, value, parse).value;
    assert [code][..0] == [] && [value][..0] == [];
    assert Failures([code], [value], parse) == [f];
  }

  /** When a Redis entry expires: never, or from an instant on. */
  datatype Expiry = Never | At(instant: int)

  /** An entry with expiry `e` still lives at `now`. */
  predicate Alive(e: Expiry, now: int)
  {
    e.Never? || now < e.instant
  }

  /** A Redis entry: the stored string and when it expires. */
  datatype Entry = Entry(value: string, expiry: Expiry)

  /** What a GET of `key` returns at `now`: the value while it lives, else nil. */
  function LiveValue(entries: map<string, Entry>, key: string, now: int): Option<string>
  {
    if key in entries && Alive(entries[key].expiry, now) then Some(entries[key].value) else None
  }

  /** What an MGET of `keys` returns at `now`, one optional value per key. */
  function MGet(entries: map<string, Entry>, keys: seq<string>, now: int): seq<Option<string>>
  {
    seq(|keys|, i requires 0 <= i < |keys| => LiveValue(entries, keys[i], now))
  }

  /** The keys of a set of codes. */
  function KeySet(codes: set<string>): set<string>
  {
    set c | c in codes :: BuildPriceKey(c)
  }

  /** `key` is the key of one of `codes`. */
  predicate IsKeyOf(key: string, codes: set<string>)
  {
    |key| >= 6 && key[..6] == "price:" && key[6..] in codes
  }

  lemma KeyOfCode(key: string, codes: set<string>)
    ensures IsKeyOf(key, codes) <==> key in KeySet(codes)
  {
    if IsKeyOf(key, codes) {
      assert key == "price:" + key[6..];
      assert BuildPriceKey(key[6..]) == key;
    }
    if key in KeySet(codes) {
      var c :| c in codes && key == BuildPriceKey(c);
      assert key[..6] == "price:" && key[6..] == c;
    }
  }

  /**
   * Redis after the SETs of the codes `done` of a batch: each of their keys holds
   * its formatted price with expiry `expiry`; every other key is as it was.
   */
  function Written(entries: map<string, Entry>, prices: map<string, Price>, done: set<string>,
                   expiry: Expiry, format: Price -> string): map<string, Entry>
    requires done <= prices.Keys
  {
    map key | key in entries.Keys + KeySet(done) ::
      if IsKeyOf(key, done) then Entry(format(prices[key[6..]]), expiry)
      else entries[key]
  }

  /** `current` is Redis after the SETs of `done` over `entries`. */
  predicate Stored(current: map<string, Entry>, entries: map<string, Entry>, prices: map<string, Price>,
                   done: set<string>, expiry: Expiry, format: Price -> string)
    requires done <= prices.Keys
  {
    current == Written(entries, prices, done, expiry, format)
  }

  /** Each written code's key holds its new entry. */
  lemma WrittenSets(entries: map<string, Entry>, prices: map<string, Price>, done: set<string>,
                    expiry: Expiry, format: Price -> string, c: string)
    requires done <= prices.Keys && c in done
    ensures var w := Written(entries, prices, done, expiry, format);
      BuildPriceKey(c) in w && w[BuildPriceKey(c)] == Entry(format(prices[c]), expiry)
  {
    var key := BuildPriceKey(c);
    assert key in KeySet(done);
    assert key[6..] == c;
  }

  /** Every key that is not written keeps its entry, and no other key appears. */
  lemma WrittenKeeps(entries: map<string, Entry>, prices: map<string, Price>, done: set<string>,
                     expiry: Expiry, format: Price -> string, key: string)
    requires done <= prices.Keys
    ensures var w := Written(entries, prices, done, expiry, format);
      && (key in w <==> key in entries || key in KeySet(done))
      && (key in entries && key !in KeySet(done) ==> w[key] == entries[key])
  {
    KeyOfCode(key, done);
  }

  /** Writing nothing changes nothing. */
  lemma WrittenNothing(entries: map<string, Entry>, prices: map<string, Price>, expiry: Expiry, format: Price -> string)
    ensures Written(entries, prices, {}, expiry, format) == entries
  {
    assert KeySet({}) == {};
  }

  /** One more SET: the entries written so far, updated at the new code's key. */
  lemma WrittenStep(current: map<string, Entry>, entries: map<string, Entry>, prices: map<string, Price>,
                    done: set<string>, expiry: Expiry, format: Price -> string, k: string)
    requires done <= prices.Keys && k in prices
    requires Stored(current, entries, prices, done, expiry, format)
    ensures Stored(current[BuildPriceKey(k) := Entry(format(prices[k]), expiry)], entries, prices, done + {k}, expiry, format)
  {
    var before := Written(entries, prices, done, expiry, format);
    var after := Written(entries, prices, done + {k}, expiry, format);
    var expected := before[BuildPriceKey(k) := Entry(format(prices[k]), expiry)];
    forall key
      ensures key in after <==> key in expected
      ensures key in after ==> after[key] == expected[key]
    {
      KeyOfCode(key, done);
      KeyOfCode(key, done + {k});
      if key == BuildPriceKey(k) {
        assert key[6..] == k;
      } else if IsKeyOf(key, done + {k}) {
        assert key == "price:" + key[6..];
        assert key[6..] != k;
      }
    }
    assert after == expected;
  }

  /** A code a cache read finds: its key lives at `now` and its value parses. */
  predicate Resolves(entries: map<string, Entry>, now: int, parse: string -> Option<Price>, code: string)
  {
    FailureAt(code, LiveValue(entries, BuildPriceKey(code), now), parse) == None
  }

  /** What a batch read returns: the prices found and the error, if any. */
  datatype CacheRead = CacheRead(prices: map<string, Price>, err: Option<string>)

  /**
   * The batch read at `now`. A transport fault fails the MGET, and so does an
   * empty request, since Redis refuses an MGET without keys; a failed MGET
   * gives no prices and the get error. Otherwise the reply is folded.
   */
  function Fetch(entries: map<string, Entry>, codes: seq<string>, now: int, fault: bool,
                 parse: string -> Option<Price>): CacheRead
  {
    if fault || codes == [] then CacheRead(map[], Some(GetError))
    else
      var values := MGet(entries, KeysOf(codes), now);
      CacheRead(Decoded(codes, values, parse), ReplyError(codes, values, parse))
  }

  /**
   * The repository meets the cache contract the price service relies on: the
   * prices are the requested codes that resolve, and there is no error exactly
   * when the MGET goes through and every requested code resolves.
   */
  lemma CacheContract(entries: map<string, Entry>, codes: seq<string>, now: int, fault: bool,
                      parse: string -> Option<Price>)
    ensures var r := Fetch(entries, codes, now, fault, parse);
      && (forall c :: c in r.prices <==> !fault && c in codes && Resolves(entries, now, parse, c))
      && (r.err == None <==> !fault && codes != [] && forall c :: c in codes ==> Resolves(entries, now, parse, c))
      && (fault || codes == [] ==> r.prices == map[] && r.err == Some(GetError))
  {
    ReplyContract(entries, codes, now, parse);
  }

  /**
   * The fold of an MGET reply: its prices are the requested codes that resolve,
   * and it reports an error exactly when some requested code does not.
   */
  lemma ReplyContract(entries: map<string, Entry>, codes: seq<string>, now: int, parse: string -> Option<Price>)
    ensures var values := MGet(entries, KeysOf(codes), now);
      && (forall c :: c in Decoded(codes, values, parse) <==> c in codes && Resolves(entries, now, parse, c))
      && (ReplyError(codes, values, parse) == None <==> forall c :: c in codes ==> Resolves(entries, now, parse, c))
  {
    var values := MGet(entries, KeysOf(codes), now);
    assert forall k :: 0 <= k < |codes| ==> values[k] == LiveValue(entries, BuildPriceKey(codes[k]), now);
    DecodedMembers(codes, values, parse);
    ReplyErrorIffFailure(codes, values, parse);
    forall c
      ensures c in Decoded(codes, values, parse) <==> c in codes && Resolves(entries, now, parse, c)
    {
      if c in Decoded(codes, values, parse) {
        var k :| 0 <= k < |codes| && codes[k] == c && FailureAt(c, values[k], parse) == None;
        assert Resolves(entries, now, parse, c);
      }
      if c in codes && Resolves(entries, now, parse, c) {
        var k :| 0 <= k < |codes| && codes[k] == c;
        assert FailureAt(c, values[k], parse) == None;
      }
    }
    if forall c :: c in codes ==> Resolves(entries, now, parse, c) {
      forall k | 0 <= k < |codes| ensures FailureAt(codes[k], values[k], parse) == None {
        assert Resolves(entries, now, parse, codes[k]);
      }
    } else {
      var c :| c in codes && !Resolves(entries, now, parse, c);
      var k :| 0 <= k < |codes| && codes[k] == c;
      assert FailureAt(codes[k], values[k], parse) != None;
    }
  }

  /**
   * Set, then get: when every requested code was written with a value that
   * parses back to its price and has not expired, the read returns exactly those
   * prices, with no error unless nothing was requested.
   */
  lemma SetThenGet(entries: map<string, Entry>, prices: map<string, Price>, codes: seq<string>,
                   now: int, parse: string -> Option<Price>, format: Price -> string)
    requires forall c :: c in codes ==> c in prices
    requires forall c :: c in codes ==> parse(format(prices[c])) == Some(prices[c])
    requires forall c :: c in codes ==>
      BuildPriceKey(c) in entries && entries[BuildPriceKey(c)].value == format(prices[c])
      && Alive(entries[BuildPriceKey(c)].expiry, now)
    ensures Fetch(entries, codes, now, false, parse)
         == CacheRead(Lookup(prices, codes), if codes == [] then Some(GetError) else None)
  {
    var values := MGet(entries, KeysOf(codes), now);
    var d := Decoded(codes, values, parse);
    forall c | c in codes ensures Resolves(entries, now, parse, c) {
      var price := prices[c];
      assert parse(format(price)) == Some(price);
      assert LiveValue(entries, BuildPriceKey(c), now) == Some(format(price));
    }
    ReplyContract(entries, codes, now, parse);
    forall c | c in codes ensures d[c] == prices[c] {
      var price := prices[c];
      assert parse(format(price)) == Some(price);
      WrittenValueRead(entries, codes, now, parse, c, price);
    }
    assert d == Lookup(prices, codes);
    if codes == [] {
      assert Lookup(prices, codes) == map[];
    }
  }

  lemma WrittenValueRead(entries: map<string, Entry>, codes: seq<string>, now: int,
                         parse: string -> Option<Price>, c: string, price: Price)
    requires c in codes && BuildPriceKey(c) in entries && Alive(entries[BuildPriceKey(c)].expiry, now)
    requires parse(entries[BuildPriceKey(c)].value) == Some(price)
    ensures var d := Decoded(codes, MGet(entries, KeysOf(codes), now), parse);
      c in d && d[c] == price
  {
    var values := MGet(entries, KeysOf(codes), now);
    var last := LastIndex(codes, c);
    assert values[last] == LiveValue(entries, BuildPriceKey(c), now);
    DecodedLastWins(codes, values, parse, last);
  }

  /**
   * A complete batch of SETs is read back: while the entries live, a read of
   * written codes returns exactly their prices, with no error unless nothing
   * was requested.
   */
  lemma WrittenThenRead(entries: map<string, Entry>, prices: map<string, Price>, codes: seq<string>,
                        expiry: Expiry, now: int, parse: string -> Option<Price>, format: Price -> string)
    requires forall c :: c in codes ==> c in prices
    requires forall c :: c in codes ==> parse(format(prices[c])) == Some(prices[c])
    requires Alive(expiry, now)
    ensures Fetch(Written(entries, prices, prices.Keys, expiry, format), codes, now, false, parse)
         == CacheRead(Lookup(prices, codes), if codes == [] then Some(GetError) else None)
  {
    var w := Written(entries, prices, prices.Keys, expiry, format);
    forall c | c in codes
      ensures BuildPriceKey(c) in w && w[BuildPriceKey(c)] == Entry(format(prices[c]), expiry)
    {
      WrittenSets(entries, prices, prices.Keys, expiry, format, c);
    }
    SetThenGet(w, prices, codes, now, parse, format);
  }

  /**
   * A code whose key is missing or has expired gets no price, and the reply
   * reports it as not existing.
   */
  lemma ExpiredIsAbsent(entries: map<string, Entry>, codes: seq<string>, now: int,
                        parse: string -> Option<Price>, c: string)
    requires c in codes
    requires BuildPriceKey(c) !in entries || !Alive(entries[BuildPriceKey(c)].expiry, now)
    ensures var values := MGet(entries, KeysOf(codes), now);
      && c !in Decoded(codes, values, parse)
      && Absent(c) in Failures(codes, values, parse)
      && ReplyError(codes, values, parse).Some?
  {
    var values := MGet(entries, KeysOf(codes), now);
    assert forall k :: 0 <= k < |codes| && codes[k] == c ==> values[k] == None;
    DecodedMembers(codes, values, parse);
    FailuresMembers(codes, values, parse);
    var k :| 0 <= k < |codes| && codes[k] == c;
    assert FailureAt(codes[k], values[k], parse) == Some(Absent(c));
  }

  /**
   * Two batches apart in time: a code of the first batch that the second does not
   * rewrite has expired once the first batch's timeout has passed, so a read of
   * a code of the second batch and that code returns the new price alone and
   * reports the old code as not existing.
   */
  lemma ExpiredAfterRewrite(first: map<string, Price>, second: map<string, Price>, late: int, early: int,
                            now: int, parse: string -> Option<Price>, format: Price -> string,
                            renewed: string, stale: string)
    requires renewed in second && stale in first && stale !in second
    requires parse(format(second[renewed])) == Some(second[renewed])
    requires early <= now < late
    ensures var entries := Written(Written(map[], first, first.Keys, At(early), format), second, second.Keys, At(late), format);
      Fetch(entries, [renewed, stale], now, false, parse)
      == CacheRead(map[renewed := second[renewed]], Some(Describe(Absent(stale))))
  {
    var entries := Written(Written(map[], first, first.Keys, At(early), format), second, second.Keys, At(late), format);
    SecondBatchValues(first, second, late, early, now, format, renewed, stale);
    FreshAndStale(entries, now, renewed, stale, parse, second[renewed]);
  }

  /** After the second batch, the rewritten code's key lives and the other code's key has expired. */
  lemma SecondBatchValues(first: map<string, Price>, second: map<string, Price>, late: int, early: int,
                          now: int, format: Price -> string, renewed: string, stale: string)
    requires renewed in second && stale in first && stale !in second
    requires early <= now < late
    ensures var entries := Written(Written(map[], first, first.Keys, At(early), format), second, second.Keys, At(late), format);
      && LiveValue(entries, BuildPriceKey(renewed), now) == Some(format(second[renewed]))
      && LiveValue(entries, BuildPriceKey(stale), now) == None
  {
    var once := Written(map[], first, first.Keys, At(early), format);
    WrittenSets(map[], first, first.Keys, At(early), format, stale);
    WrittenSets(once, second, second.Keys, At(late), format, renewed);
    WrittenKeeps(once, second, second.Keys, At(late), format, BuildPriceKey(stale));
    KeyOfCode(BuildPriceKey(stale), second.Keys);
    assert BuildPriceKey(stale)[6..] == stale;
  }

  /** A read of one live code that parses and one dead code yields that price and the dead code's message. */
  lemma FreshAndStale(entries: map<string, Entry>, now: int, renewed: string, stale: string,
                      parse: string -> Option<Price>, price: Price)
    requires LiveValue(entries, BuildPriceKey(renewed), now).Some?
    requires parse(LiveValue(entries, BuildPriceKey(renewed), now).value) == Some(price)
    requires LiveValue(entries, BuildPriceKey(stale), now) == None
    ensures var values := MGet(entries, KeysOf([renewed, stale]), now);
      && Decoded([renewed, stale], values, parse) == map[renewed := price]
      && ReplyError([renewed, stale], values, parse) == Some(Describe(Absent(stale)))
  {
    var codes := [renewed, stale];
    var values := MGet(entries, KeysOf(codes), now);
    var v := values[0];
    assert v == LiveValue(entries, BuildPriceKey(renewed), now);
    assert values[1] == None;
    assert codes[..1] == [renewed] && values[..1] == [v];
    assert [renewed][..0] == [] && [v][..0] == [];
    assert FailureAt(renewed, v, parse) == None;
    assert Decoded([renewed], [v], parse) == map[renewed := price];
    assert Decoded(codes, values, parse) == Decoded([renewed], [v], parse);
    assert Failures([renewed], [v], parse) == [];
    assert Failures(codes, values, parse) == [Absent(stale)];
    assert Messages([Absent(stale)]) == [Describe(Absent(stale))];
    assert Join([Describe(Absent(stale))], ",") == Describe(Absent(stale));
  }

  /** The last position of a requested code. */
  function LastIndex(codes: seq<string>, c: string): (last: nat)
    requires c in codes
    ensures last < |codes| && codes[last] == c
    ensures forall j :: last < j < |codes| ==> codes[j] != c
    decreases |codes|
  {
    var n := |codes| - 1;
    if codes[n] == c then n
    else
      assert c in codes[..n] by {
        var i :| 0 <= i < |codes| && codes[i] == c;
        assert codes[..n][i] == c;
      }
      LastIndex(codes[..n], c)
  }

  /**
   * The SETs of a batch: one per code, in an unspecified order, each holding the
   * formatted price with expiry `expiry`. The first failing SET (a code in
   * `failing`) ends the batch with the set error and leaves the rest unwritten;
   * `done` is the codes whose SET went through.
   */
  method WriteBatch(entries: map<string, Entry>, prices: map<string, Price>, expiry: Expiry,
                    format: Price -> string, failing: set<string>)
    returns (after: map<string, Entry>, err: Option<string>, ghost done: set<string>)
    ensures done <= prices.Keys && done * failing == {}
    ensures after == Written(entries, prices, done, expiry, format)
    ensures err == None || err == Some(SetError)
    ensures err == None <==> prices.Keys * failing == {}
    ensures err == None ==> done == prices.Keys
  {
    var remaining := prices.Keys;
    done := {};
    after := entries;
    WrittenNothing(entries, prices, expiry, format);
    while remaining != {}
      invariant done <= prices.Keys && remaining == prices.Keys - done
      invariant done * failing == {}
      invariant Stored(after, entries, prices, done, expiry, format)
      decreases |remaining|
    {
      var k :| k in remaining;
      if k in failing {
        assert k in prices.Keys * failing;
        return after, Some(SetError), done;
      }
      WrittenStep(after, entries, prices, done, expiry, format, k);
      after := after[BuildPriceKey(k) := Entry(format(prices[k]), expiry)];
      remaining := remaining - {k};
      done := done + {k};
    }
    assert done == prices.Keys;
    return after, None, done;
  }

  /**
   * The expiry of a SET issued at `now` with `timeout`: go-redis adds an expiry
   * only for a positive timeout and otherwise sends a plain SET, whose key
   * never expires.
   */
  function ExpiryAfter(now: int, timeout: int): (e: Expiry)
    ensures forall later :: Alive(e, later) <==> timeout <= 0 || later < now + timeout
  {
    if timeout > 0 then At(now + timeout) else Never
  }

  /** A Redis client with its default entry timeout. */
  class Repository {
    var entries: map<string, Entry>
    const defaultTimeout: int

    /** `New`: a client of a Redis server that holds `entries`. */
    constructor (defaultTimeout: int, entries: map<string, Entry>)
      ensures this.entries == entries && this.defaultTimeout == defaultTimeout
    {
      this.entries := entries;
      this.defaultTimeout := defaultTimeout;
    }

    /**
     * `GetPricesFor`: one MGET of every key at `now`, folded by `DecodeReply`.
     * An MGET without keys is refused by Redis, so an empty request fails.
     */
    method GetPricesFor(codes: seq<string>, now: int, fault: bool, parse: string -> Option<Price>)
      returns (prices: map<string, Price>, err: Option<string>)
      ensures CacheRead(prices, err) == Fetch(entries, codes, now, fault, parse)
      ensures codes == [] ==> prices == map[] && err == Some(GetError)
    {
      var keys := BuildPricesKeys(codes);
      var reply := if fault || |keys| == 0 then MGetFailed else MGetValues(MGet(entries, keys, now));
      prices, err := DecodeReply(codes, reply, parse);
    }

    /**
     * `SetPricesFor`: the batch of SETs of `WriteBatch`, each key expiring
     * `defaultTimeout` after `now`, or never for a timeout that is not positive.
     */
    method SetPricesFor(prices: map<string, Price>, now: int, format: Price -> string, failing: set<string>)
      returns (err: Option<string>, ghost done: set<string>)
      modifies this`entries
      ensures done <= prices.Keys && done * failing == {}
      ensures entries == Written(old(entries), prices, done, ExpiryAfter(now, defaultTimeout), format)
      ensures err == None || err == Some(SetError)
      ensures err == None <==> prices.Keys * failing == {}
      ensures err == None ==> done == prices.Keys
    {
      var after;
      after, err, done := WriteBatch(entries, prices, ExpiryAfter(now, defaultTimeout), format, failing);
      entries := after;
    }
  }

  /**
   * Expiry: with a 100 ms timeout, a price written at 0 is read back at 0; at 200,
   * after a second batch of other codes, the old code is reported as not
   * existing while the new one is read.
   */
  method ValueExpired(parse: string -> Option<Price>, format: Price -> string)
    returns (first: map<string, Price>, firstErr: Option<string>,
             second: map<string, Price>, secondErr: Option<string>)
    requires parse(format(10.5)) == Some(10.5) && parse(format(9.0)) == Some(9.0)
    ensures first == map["c3" := 10.5] && firstErr == None
    ensures second == map["c4" := 9.0] && secondErr == Some("Item c3 do not exist")
  {
    var one := map["c3" := 10.5, "c5" := 3.0];
    var two := map["c4" := 9.0, "c7" := 3.0];
    var r := new Repository(100, map[]);
    WrittenThenRead(map[], one, ["c3"], At(100), 0, parse, format);
    assert Lookup(one, ["c3"]) == map["c3" := 10.5];
    var setErr;
    ghost var done;
    setErr, done := r.SetPricesFor(one, 0, format, {});
    first, firstErr := r.GetPricesFor(["c3"], 0, false, parse);
    assert "c3" !in two by {
      assert "c3" != "c4" && "c3" != "c7";
    }
    ExpiredAfterRewrite(one, two, 300, 100, 200, parse, format, "c4", "c3");
    setErr, done := r.SetPricesFor(two, 200, format, {});
    second, secondErr := r.GetPricesFor(["c4", "c3"], 200, false, parse);
    MissingItemMessage("c3");
  }

  lemma MissingItemMessage(c: string)
    requires c == "c3"
    ensures Describe(Absent(c)) == "Item c3 do not exist"
  {
    var m := Describe(Absent(c));
    assert |m| == 20;
    assert forall i :: 0 <= i < 20 ==> m[i] == "Item c3 do not exist"[i];
  }

  /**
   * The failure paths of the repository: a missing key names its code, a failed
   * MGET gives the get error, and a failing SET gives the set error.
   */
  method RedisErrors(parse: string -> Option<Price>, format: Price -> string)
    returns (missing: Option<string>, getErr: Option<string>, setErr: Option<string>)
    ensures missing == Some("Item c1 do not exist")
    ensures getErr == Some("Redis get error")
    ensures setErr == Some("Set cache error")
  {
    var r := new Repository(1000, map[]);
    var codes := ["c1"];
    assert MGet(map[], KeysOf(codes), 0) == [None];
    SingleFailure("c1", None, parse);
    ItemMessage("c1");
    var prices;
    prices, missing := r.GetPricesFor(codes, 0, false, parse);
    prices, getErr := r.GetPricesFor(codes, 0, true, parse);
    var batch := map["c3" := 1.0, "c5" := 3.0];
    assert "c3" in batch.Keys * {"c3", "c5"};
    ghost var done;
    setErr, done := r.SetPricesFor(batch, 0, format, {"c3", "c5"});
  }

  /** A live key whose value does not parse is reported by its code. */
  lemma InvalidValueRead(parse: string -> Option<Price>, c: string)
    requires c == "c3" && parse("invalid_format") == None
    ensures var entries := map[BuildPriceKey(c) := Entry("invalid_format", At(1000))];
      var values := MGet(entries, KeysOf([c]), 0);
      && Decoded([c], values, parse) == map[]
      && ReplyError([c], values, parse) == Some("Invalid value for c3")
  {
    var entries := map[BuildPriceKey(c) := Entry("invalid_format", At(1000))];
    var values := MGet(entries, KeysOf([c]), 0);
    assert values == [Some("invalid_format")];
    assert [c][..0] == [] && values[..0] == [];
    SingleFailure(c, Some("invalid_format"), parse);
    assert FailureAt(c, values[0], parse) == Some(Unparsable(c));
    assert Decoded([c], values, parse) == Decoded([c][..0], values[..0], parse);
    var m := Describe(Unparsable(c));
    assert |m| == 20;
    assert forall i :: 0 <= i < 20 ==> m[i] == "Invalid value for c3"[i];
    assert m == "Invalid value for c3";
    assert ReplyError([c], values, parse) == Some(m);
  }

  lemma ItemMessage(c: string)
    requires c == "c1"
    ensures Describe(Absent(c)) == "Item c1 do not exist"
  {
    var m := Describe(Absent(c));
    assert |m| == 20;
    assert forall i :: 0 <= i < 20 ==> m[i] == "Item c1 do not exist"[i];
  }
}
