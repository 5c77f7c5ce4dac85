/**
 * The query-filter encoder of the client (`_parseFilters`): a filter object
 * becomes `?` followed by `key=value` items joined with `&`, each key and
 * value passed through `encodeURIComponent` on its own.  `ParseQuery`, the
 * decoder a server applies to such a query, is the encoder's partner.
 */
module Query {
  import opened Wrappers
  import Strings
  import UriComponent
  import Decimal

  /** A filter value: a string, or an integral JavaScript number. */
  datatype Scalar = Text(s: string) | Integer(n: int)
  {
    /** JavaScript's `String(value)`, which `encodeURIComponent` applies first. */
    function ToString(): string
    {
      match this
      case Text(s) => s
      case Integer(n) => Decimal.FromInt(n)
    }
  }

  /** One own property of the filter object. */
  datatype Filter = Filter(key: string, value: Scalar)

  /** A filter object, as the sequence of its properties in `Object.keys` order. */
  type FilterSet = seq<Filter>

  /**
   * One `key=value` item, key and value passed through `encodeURIComponent`
   * on their own: it holds no `&` and only query characters.
   */
  function EncodeItem(f: Filter): (r: string)
    ensures '&' !in r
    ensures forall k :: 0 <= k < |r| ==> IsQueryChar(r[k])
  {
    UriComponent.EncodeHasNoDelimiters(f.key);
    UriComponent.EncodeHasNoDelimiters(f.value.ToString());
    UriComponent.Encode(f.key) + "=" + UriComponent.Encode(f.value.ToString())
  }

  /**
   * `filters` mapped item by item, as `Object.keys(filters).map(...)` does:
   * one item per property, in order, each decoding to that property's key
   * and printed value.
   */
  function Items(filters: FilterSet): (items: seq<string>)
    ensures |items| == |filters|
    ensures forall i :: 0 <= i < |items| ==> '&' !in items[i]
    ensures forall i :: 0 <= i < |items| ==>
      DecodeItem(items[i]) == Some((filters[i].key, filters[i].value.ToString()))
  {
    assert forall i :: 0 <= i < |filters| ==>
      DecodeItem(EncodeItem(filters[i])) == Some((filters[i].key, filters[i].value.ToString())) by {
      forall i | 0 <= i < |filters| {
        DecodeEncodeItem(filters[i]);
      }
    }
    seq(|filters|, i requires 0 <= i < |filters| => EncodeItem(filters[i]))
  }

  /** The characters a filter query can contain. */
  predicate IsQueryChar(c: char) {
    UriComponent.IsUnreserved(c) || UriComponent.IsUpperHex(c) || c == '%' || c == '=' || c == '&'
  }

  /** `_parseFilters(filters)`. */
  function ParseFilters(filters: FilterSet): (q: string)
    ensures |q| >= 1 && q[0] == '?'
    ensures |filters| == 0 <==> q == "?"
    ensures forall k :: 1 <= k < |q| ==> IsQueryChar(q[k])
  {
    var items := Items(filters);
    JoinQueryChars(items);
    JoinLength(items);
    "?" + Strings.Join(items, '&')
  }

  /** The key and the value of one item, split at its first `=` and percent-decoded. */
  function DecodeItem(item: string): Option<(string, string)>
  {
    var i := Strings.IndexOf(item, '=');
    if i == |item| then None
    else
      match (UriComponent.Decode(item[..i]), UriComponent.Decode(item[i + 1..]))
      case (Some(k), Some(v)) => Some((k, v))
      case _ => None
  }

  function DecodeItems(items: seq<string>): Option<seq<(string, string)>>
    decreases |items|
  {
    if items == [] then Some([])
    else match (DecodeItem(items[0]), DecodeItems(items[1..]))
      case (Some(p), Some(rest)) => Some([p] + rest)
      case _ => None
  }

  /**
   * A query string read back into its key/value pairs: the `?`, then the
   * `&`-separated items, each split at its first `=` and percent-decoded.
   * A bare `?` holds no pair.
   */
  function ParseQuery(q: string): Option<seq<(string, string)>>
  {
    if |q| == 0 || q[0] != '?' then None
    else if |q| == 1 then Some([])
    else DecodeItems(Strings.Split(q[1..], '&'))
  }

  /** The key/value pairs of a filter object, values as JavaScript prints them. */
  function Pairs(filters: FilterSet): seq<(string, string)>
  {
    seq(|filters|, i requires 0 <= i < |filters| => (filters[i].key, filters[i].value.ToString()))
  }

  lemma {:induction false} JoinQueryChars(items: seq<string>)
    requires forall i, k :: 0 <= i < |items| && 0 <= k < |items[i]| ==> IsQueryChar(items[i][k])
    ensures forall k :: 0 <= k < |Strings.Join(items, '&')| ==> IsQueryChar(Strings.Join(items, '&')[k])
    decreases |items|
  {
    if |items| > 1 {
      JoinQueryChars(items[1..]);
    }
  }

  lemma JoinLength(items: seq<string>)
    ensures |items| >= 1 && |items[0]| >= 1 ==> |Strings.Join(items, '&')| >= 1
  {
  }

  /** The first `=` of an item is the one right after the encoded key. */
  lemma EncodeItemShape(f: Filter)
    ensures Strings.IndexOf(EncodeItem(f), '=') == |UriComponent.Encode(f.key)|
  {
    var k := UriComponent.Encode(f.key);
    UriComponent.EncodeHasNoDelimiters(f.key);
    Strings.IndexOfAfterPrefix(k, '=', UriComponent.Encode(f.value.ToString()));
  }

  /** One item decodes to its key and the printed value. */
  lemma DecodeEncodeItem(f: Filter)
    ensures DecodeItem(EncodeItem(f)) == Some((f.key, f.value.ToString()))
  {
    var k := UriComponent.Encode(f.key);
    var v := UriComponent.Encode(f.value.ToString());
    var item := EncodeItem(f);
    assert item == k + "=" + v;
    EncodeItemShape(f);
    assert item[..|k|] == k;
    assert item[|k| + 1..] == v;
    UriComponent.DecodeEncode(f.key);
    UriComponent.DecodeEncode(f.value.ToString());
  }

  /** Items that decode one by one decode together, in order. */
  lemma {:induction false} DecodeItemsOfEach(items: seq<string>, pairs: seq<(string, string)>)
    requires |items| == |pairs|
    requires forall i :: 0 <= i < |items| ==> DecodeItem(items[i]) == Some(pairs[i])
    ensures DecodeItems(items) == Some(pairs)
    decreases |items|
  {
    if items != [] {
      DecodeItemsOfEach(items[1..], pairs[1..]);
      assert pairs == [pairs[0]] + pairs[1..];
    }
  }

  lemma DecodeItemsOfItems(filters: FilterSet)
    ensures DecodeItems(Items(filters)) == Some(Pairs(filters))
  {
    DecodeItemsOfEach(Items(filters), Pairs(filters));
  }

  /**
   * Splitting the query on `&`, each item on its first `=`, and
   * percent-decoding both halves recovers every key/value pair, in order.
   */
  lemma ParseQueryOfParseFilters(filters: FilterSet)
    ensures ParseQuery(ParseFilters(filters)) == Some(Pairs(filters))
  {
    var q := ParseFilters(filters);
    if |filters| > 0 {
      var items := Items(filters);
      assert Strings.SeparatorFree(items, '&');
      assert q[1..] == Strings.Join(items, '&');
      Strings.SplitJoin(items, '&');
      DecodeItemsOfItems(filters);
    } else {
      assert Pairs(filters) == [];
    }
  }

  /** Filter objects with different keys or values never share a query string. */
  lemma ParseFiltersInjective(a: FilterSet, b: FilterSet)
    requires ParseFilters(a) == ParseFilters(b)
    ensures Pairs(a) == Pairs(b)
  {
    ParseQueryOfParseFilters(a);
    ParseQueryOfParseFilters(b);
  }

  /** An empty filter object yields a bare `?`. */
  lemma ParseFiltersEmpty()
    ensures ParseFilters([]) == "?"
  {
  }

  lemma EncodeColon()
    ensures UriComponent.Encode(":") == "%3A"
  {
    assert UriComponent.Encode(":") == UriComponent.EncodeChar(':') + UriComponent.Encode([]);
  }

  /** Only the two colons of an ISO 8601 timestamp need escaping. */
  lemma EncodeColonSeparated(a: string, b: string, c: string)
    requires UriComponent.AllUnreserved(a) && UriComponent.AllUnreserved(b) && UriComponent.AllUnreserved(c)
    ensures UriComponent.Encode(a + ":" + b + ":" + c) == a + "%3A" + b + "%3A" + c
  {
    EncodeColon();
    UriComponent.EncodeUnreserved(a);
    UriComponent.EncodeUnreserved(b);
    UriComponent.EncodeUnreserved(c);
    UriComponent.EncodeAppend(a + ":" + b + ":", c);
    UriComponent.EncodeAppend(a + ":" + b, ":");
    UriComponent.EncodeAppend(a + ":", b);
    UriComponent.EncodeAppend(a, ":");
  }

  // The test-suite example. The solver cannot equate long string literals
  // with their concatenations in one step, so each such literal fact below
  // (`TimestampPieces`, `ExampleKeys`, `SinceItem`, `UntilItem`) is a lemma
  // of its own, and the example is assembled from them.

  lemma TimestampPieces()
    ensures "2017-01-01T22" + ":" + "17" + ":" + "59.039Z" == "2017-01-01T22:17:59.039Z"
    ensures "2017-01-01T22" + "%3A" + "17" + "%3A" + "59.039Z" == "2017-01-01T22%3A17%3A59.039Z"
    ensures UriComponent.AllUnreserved("2017-01-01T22")
    ensures UriComponent.AllUnreserved("17") && UriComponent.AllUnreserved("59.039Z")
  {
  }

  /** `encodeURIComponent` of the timestamp used by the client's own test. */
  lemma EncodeTimestamp()
    ensures UriComponent.Encode("2017-01-01T22:17:59.039Z") == "2017-01-01T22%3A17%3A59.039Z"
  {
    TimestampPieces();
    EncodeColonSeparated("2017-01-01T22", "17", "59.039Z");
  }

  lemma ItemsOfThree(f0: Filter, f1: Filter, f2: Filter)
    ensures Items([f0, f1, f2]) == [EncodeItem(f0), EncodeItem(f1), EncodeItem(f2)]
  {
    ItemsOfLengthThree([f0, f1, f2]);
  }

  lemma ItemsOfLengthThree(fs: FilterSet)
    requires |fs| == 3
    ensures Items(fs) == [EncodeItem(fs[0]), EncodeItem(fs[1]), EncodeItem(fs[2])]
  {
  }

  lemma JoinOfThree(a: string, b: string, c: string)
    ensures Strings.Join([a, b, c], '&') == a + "&" + b + "&" + c
  {
    assert [a, b, c][1..] == [b, c];
    assert [b, c][1..] == [c];
    assert Strings.Join([c], '&') == c;
    assert Strings.Join([b, c], '&') == b + "&" + c;
  }

  lemma ItemsOfFour(fs: FilterSet)
    requires |fs| == 4
    ensures Items(fs) == [EncodeItem(fs[0]), EncodeItem(fs[1]), EncodeItem(fs[2]), EncodeItem(fs[3])]
  {
  }

  lemma ParseFiltersOfItems(filters: FilterSet, a: string, b: string, c: string)
    requires Items(filters) == [a, b, c]
    ensures ParseFilters(filters) == "?" + a + "&" + b + "&" + c
  {
    JoinOfThree(a, b, c);
  }

  lemma ParseFiltersOfThree(f0: Filter, f1: Filter, f2: Filter)
    ensures ParseFilters([f0, f1, f2]) == "?" + EncodeItem(f0) + "&" + EncodeItem(f1) + "&" + EncodeItem(f2)
  {
    ItemsOfThree(f0, f1, f2);
    ParseFiltersOfItems([f0, f1, f2], EncodeItem(f0), EncodeItem(f1), EncodeItem(f2));
  }

  lemma TextItem(key: string, value: string, encodedValue: string)
    requires UriComponent.AllUnreserved(key)
    requires UriComponent.Encode(value) == encodedValue
    ensures EncodeItem(Filter(key, Text(value))) == key + "=" + encodedValue
  {
    UriComponent.EncodeUnreserved(key);
  }

  lemma LimitItem()
    ensures EncodeItem(Filter("limit", Integer(20))) == "limit=20"
  {
    assert Decimal.FromInt(20) == "20";
    UriComponent.EncodeUnreserved("limit");
    UriComponent.EncodeUnreserved("20");
  }

  lemma ExampleKeys()
    ensures UriComponent.AllUnreserved("since") && UriComponent.AllUnreserved("until")
  {
  }

  lemma SinceItem()
    ensures "since" + "=" + "2017-01-01T22%3A17%3A59.039Z" == "since=2017-01-01T22%3A17%3A59.039Z"
  {
  }

  lemma UntilItem()
    ensures "until" + "=" + "2017-01-01T22%3A17%3A59.039Z" == "until=2017-01-01T22%3A17%3A59.039Z"
  {
  }

  /**
   * The example of the client's test suite, encoded exactly as it expects
   * (the expected query is written as `?`, the three items and the two
   * `&` between them, which concatenate to the test's literal).
   */
  lemma ParseFiltersExample()
    ensures ParseFilters([
      Filter("since", Text("2017-01-01T22:17:59.039Z")),
      Filter("until", Text("2017-01-01T22:17:59.039Z")),
      Filter("limit", Integer(20))])
      == "?" + "since=2017-01-01T22%3A17%3A59.039Z" + "&" + "until=2017-01-01T22%3A17%3A59.039Z" + "&" + "limit=20"
  {
    ExampleKeys();
    SinceItem();
    UntilItem();
    EncodeTimestamp();
    TextItem("since", "2017-01-01T22:17:59.039Z", "2017-01-01T22%3A17%3A59.039Z");
    TextItem("until", "2017-01-01T22:17:59.039Z", "2017-01-01T22%3A17%3A59.039Z");
    LimitItem();
    ParseFiltersOfThree(
      Filter("since", Text("2017-01-01T22:17:59.039Z")),
      Filter("until", Text("2017-01-01T22:17:59.039Z")),
      Filter("limit", Integer(20)));
  }
}
