/**
 * The two helpers of clean_json.py: `fix_encoding`, which repairs text
 * whose UTF-8 bytes were read as Latin-1, and `flatten_dict`, which turns a
 * nested JSON object into one flat dictionary whose keys are the joined key
 * paths and whose values are scalars.
 *
 * A Python dictionary is a sequence of (key, value) pairs with distinct
 * keys, in insertion order; building one from pairs (`dict(items)`) keeps
 * the position of a key's first occurrence and the value of its last.
 */
module CleanJson {

  import opened Wrappers
  import opened Strings
  import opened Utf8

  /** A JSON value as `json.load` returns it (floats are not modelled). */
  datatype Json =
    | JNull
    | JBool(b: bool)
    | JInt(i: int)
    | JStr(s: string)
    | JList(items: seq<Json>)
    | JObject(fields: seq<(string, Json)>)

  type Dict = seq<(string, Json)>

  // ---------------------------------------------------------------------
  // fix_encoding

  /** `fix_encoding` on a string: encode as Latin-1, decode as UTF-8, and
      fall back to the input when either step fails. */
  function FixEncoding(text: string): (r: string)
    ensures Latin1Encode(text).None? ==> r == text
    ensures Latin1Encode(text).Some? && Decode(Latin1Encode(text).value).None? ==> r == text
    ensures |r| <= |text|
  {
    match Latin1Encode(text)
    case None => text
    case Some(bytes) =>
      match Decode(bytes)
      case None => text
      case Some(fixed) => fixed
  }

  /** `fix_encoding` on any value: only strings are touched. */
  function FixValue(v: Json): (r: Json)
    ensures !v.JStr? ==> r == v
    ensures v.JStr? ==> r == JStr(FixEncoding(v.s))
  {
    if v.JStr? then JStr(FixEncoding(v.s)) else v
  }

  /** Text that is plain ASCII is left as it is. */
  lemma FixEncodingAscii(text: string)
    requires forall i :: 0 <= i < |text| ==> text[i] as int < 0x80
    ensures FixEncoding(text) == text
  {
    var bytes := Latin1Encode(text).value;
    DecodeAscii(bytes);
    var fixed := Decode(bytes).value;
    assert forall i :: 0 <= i < |text| ==> fixed[i] == text[i];
  }

  /** Text whose UTF-8 encoding was read as Latin-1 is repaired. */
  lemma FixEncodingRepairs(s: string)
    ensures FixEncoding(Latin1Decode(Encode(s))) == s
  {
    Latin1RoundTrip(Encode(s));
    DecodeEncode(s);
  }

  /** A repair is always the undoing of that misreading: reading the
      repaired text's UTF-8 bytes as Latin-1 gives the input back. */
  lemma FixEncodingUndoesMisreading(text: string)
    ensures Latin1Decode(Encode(FixEncoding(text))) == text || FixEncoding(text) == text
  {
    match Latin1Encode(text)
    case None =>
    case Some(bytes) =>
      if Decode(bytes).Some? {
        EncodeDecode(bytes);
        assert Latin1Decode(bytes) == text;
      }
  }

  // ---------------------------------------------------------------------
  // Python dictionaries

  /** The keys of a dictionary. */
  function Keys(d: Dict): (r: set<string>)
    ensures forall k :: k in r <==> exists i :: 0 <= i < |d| && d[i].0 == k
  {
    set p | p in d :: p.0
  }

  ghost predicate DistinctKeys(d: Dict)
  {
    forall i, j :: 0 <= i < j < |d| ==> d[i].0 != d[j].0
  }

  /** `d[k] = v`: the value of an existing key is replaced in place, a new
      key goes at the end. */
  function Put(d: Dict, k: string, v: Json): Dict
  {
    if d == [] then [(k, v)]
    else if d[0].0 == k then [(k, v)] + d[1..]
    else [d[0]] + Put(d[1..], k, v)
  }

  /** `dict(items)`. */
  function DictOf(items: seq<(string, Json)>): Dict
  {
    if items == [] then []
    else
      var last := items[|items| - 1];
      Put(DictOf(items[..|items| - 1]), last.0, last.1)
  }

  /** `d.get(k)`. */
  function Lookup(d: Dict, k: string): (r: Option<Json>)
    ensures r.Some? <==> k in Keys(d)
  {
    if d == [] then None
    else if d[0].0 == k then Some(d[0].1)
    else Lookup(d[1..], k)
  }

  /** The value paired with the last occurrence of `k` among `items`. */
  function LastValue(items: seq<(string, Json)>, k: string): (r: Option<Json>)
    ensures r.Some? <==> k in Keys(items)
  {
    if items == [] then None
    else if items[|items| - 1].0 == k then Some(items[|items| - 1].1)
    else LastValue(items[..|items| - 1], k)
  }

  /** The keys of an entry followed by a dictionary. */
  lemma KeysCons(p: (string, Json), d: Dict)
    ensures Keys([p] + d) == {p.0} + Keys(d)
  {
    assert forall q :: q in [p] + d <==> q == p || q in d;
  }

  /** An entry followed by a dictionary has distinct keys exactly when the
      dictionary does and does not hold the entry's key. */
  lemma DistinctCons(p: (string, Json), d: Dict)
    ensures DistinctKeys([p] + d) <==> p.0 !in Keys(d) && DistinctKeys(d)
  {
    var e := [p] + d;
    assert forall i :: 0 <= i < |d| ==> e[i + 1] == d[i];
    if DistinctKeys(e) {
      forall i | 0 <= i < |d|
        ensures d[i].0 != p.0
      {
        assert e[0].0 != e[i + 1].0;
      }
      forall i, j | 0 <= i < j < |d|
        ensures d[i].0 != d[j].0
      {
        assert e[i + 1].0 != e[j + 1].0;
      }
    }
  }

  /** After `d[k] = v` the keys are those of `d` and `k`. */
  lemma {:induction false} PutKeys(d: Dict, k: string, v: Json)
    ensures Keys(Put(d, k, v)) == Keys(d) + {k}
  {
    if d == [] {
    } else if d[0].0 == k {
      KeysCons(d[0], d[1..]);
      KeysCons((k, v), d[1..]);
      assert d == [d[0]] + d[1..];
    } else {
      PutKeys(d[1..], k, v);
      KeysCons(d[0], d[1..]);
      KeysCons(d[0], Put(d[1..], k, v));
      assert d == [d[0]] + d[1..];
    }
  }

  /** `d[k] = v` keeps the keys distinct. */
  lemma {:induction false} PutDistinct(d: Dict, k: string, v: Json)
    requires DistinctKeys(d)
    ensures DistinctKeys(Put(d, k, v))
  {
    if d != [] {
      assert d == [d[0]] + d[1..];
      DistinctCons(d[0], d[1..]);
      if d[0].0 == k {
        DistinctCons((k, v), d[1..]);
      } else {
        PutDistinct(d[1..], k, v);
        PutKeys(d[1..], k, v);
        DistinctCons(d[0], Put(d[1..], k, v));
      }
    }
  }

  /** After `d[k] = v`, `k` maps to `v` and every other key keeps its
      value. */
  lemma {:induction false} PutLookup(d: Dict, k: string, v: Json)
    ensures Lookup(Put(d, k, v), k) == Some(v)
    ensures forall k' :: k' != k ==> Lookup(Put(d, k, v), k') == Lookup(d, k')
  {
    if d != [] && d[0].0 != k {
      PutLookup(d[1..], k, v);
      assert Put(d, k, v)[1..] == Put(d[1..], k, v);
    }
  }

  /** A new key goes at the end. */
  lemma {:induction false} PutNew(d: Dict, k: string, v: Json)
    requires k !in Keys(d)
    ensures Put(d, k, v) == d + [(k, v)]
  {
    if d != [] {
      assert d[0].0 != k;
      assert k !in Keys(d[1..]) by {
        assert forall i :: 0 <= i < |d[1..]| ==> d[1..][i] == d[i + 1];
      }
      PutNew(d[1..], k, v);
      assert d == [d[0]] + d[1..];
    }
  }

  /** `dict(items)` has distinct keys, the keys of `items`, and at most as
      many entries as `items`. */
  lemma {:induction false} DictOfKeys(items: seq<(string, Json)>)
    ensures DistinctKeys(DictOf(items))
    ensures Keys(DictOf(items)) == Keys(items)
    ensures |DictOf(items)| <= |items|
  {
    if items != [] {
      var init, last := items[..|items| - 1], items[|items| - 1];
      DictOfKeys(init);
      PutKeys(DictOf(init), last.0, last.1);
      PutDistinct(DictOf(init), last.0, last.1);
      PutLength(DictOf(init), last.0, last.1);
      assert Keys(items) == Keys(init) + {last.0} by {
        assert items == init + [last];
      }
    }
  }

  /** In `dict(items)` each key holds the value of its last occurrence. */
  lemma {:induction false} DictOfLookup(items: seq<(string, Json)>)
    ensures forall k :: Lookup(DictOf(items), k) == LastValue(items, k)
  {
    if items != [] {
      var init, last := items[..|items| - 1], items[|items| - 1];
      DictOfLookup(init);
      PutLookup(DictOf(init), last.0, last.1);
    }
  }

  /** `d[k] = v` adds one entry exactly when the key is new. */
  lemma {:induction false} PutLength(d: Dict, k: string, v: Json)
    ensures |Put(d, k, v)| == if k in Keys(d) then |d| else |d| + 1
  {
    if d != [] && d[0].0 != k {
      PutLength(d[1..], k, v);
      assert Keys(d) == {d[0].0} + Keys(d[1..]) by {
        assert forall i :: 1 <= i < |d| ==> d[i] == d[1..][i - 1];
      }
    }
  }

  /** Building a dictionary from pairs whose keys are already distinct keeps
      them all, in order. */
  lemma {:induction false} DictOfDistinct(items: seq<(string, Json)>)
    requires DistinctKeys(items)
    ensures DictOf(items) == items
  {
    if items != [] {
      var init, last := items[..|items| - 1], items[|items| - 1];
      DictOfDistinct(init);
      DictOfKeys(init);
      assert last.0 !in Keys(init);
      PutNew(init, last.0, last.1);
      assert init + [last] == items;
    }
  }

  /** Every entry of `d[k] = v` is an entry of `d` or the new one. */
  lemma {:induction false} PutPairs(d: Dict, k: string, v: Json)
    ensures forall p :: p in Put(d, k, v) ==> p in d || p == (k, v)
  {
    if d != [] && d[0].0 != k {
      PutPairs(d[1..], k, v);
      assert forall p :: p in d[1..] ==> p in d;
    }
  }

  /** Every entry of `dict(items)` is one of the pairs. */
  lemma {:induction false} DictOfPairs(items: seq<(string, Json)>)
    ensures forall p :: p in DictOf(items) ==> p in items
  {
    if items != [] {
      var init, last := items[..|items| - 1], items[|items| - 1];
      DictOfPairs(init);
      PutPairs(DictOf(init), last.0, last.1);
      assert forall p :: p in init ==> p in items;
    }
  }

  // ---------------------------------------------------------------------
  // flatten_dict

  /** Python's `str` of an integer: its decimal digits, after a minus sign
      when negative. */
  function IntToString(i: int): (r: string)
    ensures |r| >= 1
    ensures r[0] == '-' <==> i < 0
    ensures i >= 0 ==> IsDecimal(r) && DecimalValue(r) == i
    ensures i < 0 ==> IsDecimal(r[1..]) && DecimalValue(r[1..]) == -i
  {
    if i < 0 then "-" + NatToString(-i) else NatToString(i)
  }

  /** A decimal numeral without superfluous leading zeros. */
  predicate IsDecimal(s: string)
  {
    && |s| >= 1
    && (forall k :: 0 <= k < |s| ==> '0' <= s[k] <= '9')
    && (s[0] == '0' ==> |s| == 1)
  }

  /** The number a string of decimal digits denotes. */
  function DecimalValue(s: string): int
  {
    if s == [] then 0 else DecimalValue(s[..|s| - 1]) * 10 + (s[|s| - 1] as int - '0' as int)
  }

  function NatToString(n: nat): (r: string)
    ensures IsDecimal(r) && DecimalValue(r) == n
  {
    var digit := ['0' + (n % 10) as char];
    if n < 10 then digit
    else
      var prefix := NatToString(n / 10);
      assert (prefix + digit)[..|prefix|] == prefix;
      prefix + digit
  }

  /** Python's `str` of a list element. The `str` of a nested list or
      dictionary is Python's `repr` of it, which `repr` gives. */
  function Str(v: Json, repr: Json -> string): (r: string)
    ensures v.JNull? ==> r == "None"
    ensures v.JBool? ==> r == if v.b then "True" else "False"
    ensures v.JInt? ==> r == IntToString(v.i)
    ensures v.JStr? ==> r == v.s
    ensures v.JList? || v.JObject? ==> r == repr(v)
  {
    match v
    case JNull => "None"
    case JBool(b) => if b then "True" else "False"
    case JInt(i) => IntToString(i)
    case JStr(s) => s
    case _ => repr(v)
  }

  /** The pieces of a list value: `fix_encoding(str(i))` for each element. */
  function ListPieces(items: seq<Json>, repr: Json -> string): (r: seq<string>)
    ensures |r| == |items|
    ensures forall i :: 0 <= i < |items| ==> r[i] == FixEncoding(Str(items[i], repr))
  {
    if items == [] then [] else [FixEncoding(Str(items[0], repr))] + ListPieces(items[1..], repr)
  }

  /** The number of nodes of a value, not counting the inside of lists. */
  function Size(v: Json): (r: nat)
    ensures r >= 1
    decreases v
  {
    match v
    case JObject(fields) => 1 + SizeDict(fields)
    case _ => 1
  }

  function SizeDict(d: Dict): nat
    decreases d
  {
    if d == [] then 0
    else
      var last := d[|d| - 1];
      assert last in d;
      assert last.1 < last;
      SizeDict(d[..|d| - 1]) + Size(last.1)
  }

  /** The key under which `k` is stored below `parentKey`. */
  function NewKey(parentKey: string, sep: string, k: string): string
  {
    if parentKey != "" then parentKey + sep + k else k
  }

  /** A value `flatten_dict` leaves in its result: neither a dictionary nor
      a list. */
  predicate IsFlat(v: Json)
  {
    !v.JObject? && !v.JList?
  }

  /** The value `flatten_dict` stores for a value that is not a dictionary:
      a list becomes the "; "-joined fixed `str` of its elements, anything
      else its fixed self. */
  function FlatValue(v: Json, repr: Json -> string): (r: Json)
    ensures !v.JObject? ==> IsFlat(r)
    ensures v.JStr? ==> r == JStr(FixEncoding(v.s))
    ensures v.JList? ==> r == JStr(Join(ListPieces(v.items, repr), "; "))
    ensures v.JList? && v.items == [] ==> r == JStr("")
    ensures !v.JStr? && !v.JList? && !v.JObject? ==> r == v
  {
    if v.JList? then JStr(Join(ListPieces(v.items, repr), "; ")) else FixValue(v)
  }

  /** The `items` list `flatten_dict` builds before turning it into a
      dictionary: per entry of `d`, in order, the flattened entries of a
      nested dictionary, the joined pieces of a list, or the fixed value. */
  function Items(d: Dict, parentKey: string, sep: string, repr: Json -> string): (r: seq<(string, Json)>)
    ensures forall p :: p in r ==> IsFlat(p.1)
    decreases SizeDict(d), 0
  {
    if d == [] then []
    else
      var k, v := d[|d| - 1].0, d[|d| - 1].1;
      var key := NewKey(parentKey, sep, k);
      Items(d[..|d| - 1], parentKey, sep, repr) +
        match v
        case JObject(fields) =>
          assert SizeDict(fields) < Size(v) <= SizeDict(d);
          FlattenDict(fields, key, sep, repr)
        case _ => [(key, FlatValue(v, repr))]
  }

  /** `flatten_dict(d, parent_key, sep)`. */
  function FlattenDict(d: Dict, parentKey: string := "", sep: string := ".", repr: Json -> string): (r: Dict)
    ensures DistinctKeys(r)
    ensures forall p :: p in r ==> IsFlat(p.1)
    decreases SizeDict(d), 1
  {
    var items := Items(d, parentKey, sep, repr);
    DictOfKeys(items);
    DictOfPairs(items);
    DictOf(items)
  }

  /** The number of scalar and list values reachable through nested
      dictionaries. */
  function Leaves(v: Json): nat
    decreases v
  {
    match v
    case JObject(fields) => LeavesDict(fields)
    case _ => 1
  }

  function LeavesDict(d: Dict): nat
    decreases d
  {
    if d == [] then 0
    else
      var last := d[|d| - 1];
      assert last in d;
      assert last.1 < last;
      LeavesDict(d[..|d| - 1]) + Leaves(last.1)
  }

  /** A key `flatten_dict` produces below a non-empty parent starts with the
      parent and the separator. */
  lemma {:induction false} NestedKeyPrefix(x: string, parentKey: string, sep: string, k: string)
    requires parentKey != ""
    requires StartsWith(x, NewKey(parentKey, sep, k) + sep)
    ensures StartsWith(x, parentKey + sep)
  {
    var key := NewKey(parentKey, sep, k);
    assert (key + sep)[..|parentKey + sep|] == parentKey + sep;
    assert x[..|parentKey + sep|] == x[..|key + sep|][..|parentKey + sep|];
  }

  /** The pairs `flatten_dict` collects hold only flat values, there is at
      most one per leaf, and below a non-empty parent every key starts with
      the parent and the separator. */
  lemma {:induction false} ItemsShape(d: Dict, parentKey: string, sep: string, repr: Json -> string)
    decreases SizeDict(d)
    ensures |Items(d, parentKey, sep, repr)| <= LeavesDict(d)
    ensures forall p :: p in Items(d, parentKey, sep, repr) ==> IsFlat(p.1)
    ensures parentKey != "" ==>
              forall p :: p in Items(d, parentKey, sep, repr) ==> StartsWith(p.0, parentKey + sep)
  {
    if d != [] {
      var init, k, v := d[..|d| - 1], d[|d| - 1].0, d[|d| - 1].1;
      var key := NewKey(parentKey, sep, k);
      ItemsShape(init, parentKey, sep, repr);
      var before := Items(init, parentKey, sep, repr);
      var tail := match v
        case JObject(fields) => FlattenDict(fields, key, sep, repr)
        case _ => [(key, FlatValue(v, repr))];
      assert Items(d, parentKey, sep, repr) == before + tail;
      assert LeavesDict(d) == LeavesDict(init) + Leaves(v);
      match v {
        case JObject(fields) =>
          assert SizeDict(fields) < SizeDict(d);
          ItemsShape(fields, key, sep, repr);
          var nested := Items(fields, key, sep, repr);
          DictOfPairs(nested);
          DictOfKeys(nested);
          if parentKey != "" {
            assert key != "";
            forall p | p in tail
              ensures StartsWith(p.0, parentKey + sep)
            {
              NestedKeyPrefix(p.0, parentKey, sep, k);
            }
          }
        case _ =>
      }
    }
  }

  /** `flatten_dict` returns a dictionary (distinct keys) of flat values, at
      most one per leaf of the input, each key holding the value of its last
      occurrence among the collected pairs, and below a non-empty parent
      every key starts with the parent and the separator. */
  lemma FlattenDictShape(d: Dict, parentKey: string, sep: string, repr: Json -> string)
    ensures DistinctKeys(FlattenDict(d, parentKey, sep, repr))
    ensures |FlattenDict(d, parentKey, sep, repr)| <= LeavesDict(d)
    ensures forall p :: p in FlattenDict(d, parentKey, sep, repr) ==> IsFlat(p.1)
    ensures parentKey != "" ==>
              forall p :: p in FlattenDict(d, parentKey, sep, repr) ==> StartsWith(p.0, parentKey + sep)
    ensures forall k :: Lookup(FlattenDict(d, parentKey, sep, repr), k) == LastValue(Items(d, parentKey, sep, repr), k)
  {
    var items := Items(d, parentKey, sep, repr);
    ItemsShape(d, parentKey, sep, repr);
    DictOfKeys(items);
    DictOfLookup(items);
    DictOfPairs(items);
  }

  /** Different keys below the same parent stay different. */
  lemma NewKeyInjective(parentKey: string, sep: string, k1: string, k2: string)
    requires NewKey(parentKey, sep, k1) == NewKey(parentKey, sep, k2)
    ensures k1 == k2
  {
    if parentKey != "" {
      var n := |parentKey + sep|;
      assert k1 == NewKey(parentKey, sep, k1)[n..];
      assert k2 == NewKey(parentKey, sep, k2)[n..];
    }
  }

  /** A list of ASCII strings is stored as the strings themselves joined
      with "; ". */
  lemma FlatListOfAsciiStrings(items: seq<Json>, repr: Json -> string)
    requires forall i :: 0 <= i < |items| ==> items[i].JStr?
    requires forall i, k :: 0 <= i < |items| && 0 <= k < |items[i].s| ==> items[i].s[k] as int < 0x80
    ensures FlatValue(JList(items), repr) == JStr(Join(seq(|items|, i requires 0 <= i < |items| => items[i].s), "; "))
  {
    var pieces := ListPieces(items, repr);
    forall i | 0 <= i < |items|
      ensures pieces[i] == items[i].s
    {
      FixEncodingAscii(items[i].s);
    }
    assert pieces == seq(|items|, i requires 0 <= i < |items| => items[i].s);
  }

  /** A dictionary without nested dictionaries and with distinct keys keeps
      its entries, in order: each key moves below the parent and each value
      becomes its flat value. */
  lemma {:induction false} FlattenDictNoNesting(d: Dict, parentKey: string, sep: string, repr: Json -> string)
    requires DistinctKeys(d)
    requires forall i :: 0 <= i < |d| ==> !d[i].1.JObject?
    ensures |FlattenDict(d, parentKey, sep, repr)| == |d|
    ensures forall i :: 0 <= i < |d| ==>
              FlattenDict(d, parentKey, sep, repr)[i] == (NewKey(parentKey, sep, d[i].0), FlatValue(d[i].1, repr))
  {
    ItemsNoNesting(d, parentKey, sep, repr);
    var items := Items(d, parentKey, sep, repr);
    forall i, j | 0 <= i < j < |items|
      ensures items[i].0 != items[j].0
    {
      if items[i].0 == items[j].0 {
        NewKeyInjective(parentKey, sep, d[i].0, d[j].0);
      }
    }
    DictOfDistinct(items);
  }

  /** Called with its defaults, `flatten_dict` leaves a dictionary without
      nested dictionaries and with distinct keys under its own keys, in
      order, each value becoming its flat value. */
  lemma TopLevelKeysKept(d: Dict, repr: Json -> string)
    requires DistinctKeys(d)
    requires forall i :: 0 <= i < |d| ==> !d[i].1.JObject?
    ensures |FlattenDict(d, repr := repr)| == |d|
    ensures forall i :: 0 <= i < |d| ==> FlattenDict(d, repr := repr)[i] == (d[i].0, FlatValue(d[i].1, repr))
  {
    FlattenDictNoNesting(d, "", ".", repr);
  }

  lemma {:induction false} ItemsNoNesting(d: Dict, parentKey: string, sep: string, repr: Json -> string)
    requires forall i :: 0 <= i < |d| ==> !d[i].1.JObject?
    ensures |Items(d, parentKey, sep, repr)| == |d|
    ensures forall i :: 0 <= i < |d| ==>
              Items(d, parentKey, sep, repr)[i] == (NewKey(parentKey, sep, d[i].0), FlatValue(d[i].1, repr))
  {
    if d != [] {
      var init := d[..|d| - 1];
      ItemsNoNesting(init, parentKey, sep, repr);
      var items, front := Items(d, parentKey, sep, repr), Items(init, parentKey, sep, repr);
      assert items == front + [(NewKey(parentKey, sep, d[|d| - 1].0), FlatValue(d[|d| - 1].1, repr))];
      forall i | 0 <= i < |d|
        ensures items[i] == (NewKey(parentKey, sep, d[i].0), FlatValue(d[i].1, repr))
      {
        if i < |init| {
          assert d[i] == init[i] && items[i] == front[i];
        }
      }
    }
  }

  /** The collected pairs of a dictionary with one more entry: those of the
      dictionary, then those of the new entry. */
  lemma ItemsSnoc(d: Dict, k: string, v: Json, parentKey: string, sep: string, repr: Json -> string)
    ensures !v.JObject? ==>
              Items(d + [(k, v)], parentKey, sep, repr)
              == Items(d, parentKey, sep, repr) + [(NewKey(parentKey, sep, k), FlatValue(v, repr))]
    ensures v.JObject? ==>
              Items(d + [(k, v)], parentKey, sep, repr)
              == Items(d, parentKey, sep, repr) + FlattenDict(v.fields, NewKey(parentKey, sep, k), sep, repr)
  {
    assert (d + [(k, v)])[..|d|] == d;
  }

  /** The last entry of a dictionary, when it is not itself a dictionary,
      is in the result under its key below the parent with its flat value,
      whatever came before it. */
  lemma LastEntryWins(d: Dict, k: string, v: Json, parentKey: string, sep: string, repr: Json -> string)
    requires !v.JObject?
    ensures Lookup(FlattenDict(d + [(k, v)], parentKey, sep, repr), NewKey(parentKey, sep, k))
            == Some(FlatValue(v, repr))
  {
    ItemsSnoc(d, k, v, parentKey, sep, repr);
    DictOfLookup(Items(d + [(k, v)], parentKey, sep, repr));
  }

  /** A nested empty dictionary contributes no key. */
  lemma EmptyNestedDropped(d: Dict, k: string, parentKey: string, sep: string, repr: Json -> string)
    ensures FlattenDict(d + [(k, JObject([]))], parentKey, sep, repr) == FlattenDict(d, parentKey, sep, repr)
  {
    ItemsSnoc(d, k, JObject([]), parentKey, sep, repr);
    assert Items(d, parentKey, sep, repr) + [] == Items(d, parentKey, sep, repr);
  }
}
