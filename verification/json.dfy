/**
 * The part of Python's `json.dumps(value, sort_keys=True)` the identity
 * derivation relies on: a small JSON value type whose objects keep their
 * insertion order (as Python dicts do), and a serialiser that writes every
 * object's members in ascending key order with the default separators
 * ", " and ": ".
 */
module Json {
  import opened Wrappers
  import opened KeyOrder

  datatype Json =
    | JStr(s: string)
    | JNum(n: int)                        // a float with an integral value
    | JArr(items: seq<Json>)
    | JObj(fields: seq<(string, Json)>)   // members in insertion order

  /** The escape sequence written for one character of a string literal. */
  function EscapeChar(c: char): (r: string)
    ensures |r| >= 1
    ensures r[0] == '\\' <==> |r| == 2
    ensures r[0] != '"'
  {
    if c == '"' then "\\\""
    else if c == '\\' then "\\\\"
    else if c == '\n' then "\\n"
    else if c == '\r' then "\\r"
    else if c == '\t' then "\\t"
    else if c == '\U{08}' then "\\b"
    else if c == '\U{0C}' then "\\f"
    else [c]
  }

  function Escape(s: string): string {
    if s == [] then [] else EscapeChar(s[0]) + Escape(s[1..])
  }

  /** A string literal: the escaped text between double quotes. */
  function Quote(s: string): (r: string)
    ensures |r| >= 2 && r[0] == '"' && r[|r| - 1] == '"'
  {
    "\"" + Escape(s) + "\""
  }

  function DigitChar(d: nat): char
    requires d < 10
  {
    ('0' as int + d) as char
  }

  function NatText(n: nat): (r: string)
    ensures |r| >= 1
  {
    if n < 10 then [DigitChar(n)] else NatText(n / 10) + [DigitChar(n % 10)]
  }

  /**
   * Python's `repr` of a float whose value is the integer `n`, for |n| < 10^16
   * (from there on `repr` switches to exponent form); the model only writes 0.
   */
  function FloatText(n: int): string {
    (if n < 0 then "-" + NatText(-n) else NatText(n)) + ".0"
  }

  /** Parts separated by ", ". */
  function JoinComma(parts: seq<string>): string {
    if parts == [] then []
    else if |parts| == 1 then parts[0]
    else parts[0] + ", " + JoinComma(parts[1..])
  }

  /** `"key": value` for each already serialised member. */
  function Members(ps: seq<(string, string)>): (r: seq<string>)
    ensures |r| == |ps|
  {
    seq(|ps|, i requires 0 <= i < |ps| => MemberText(ps[i].0, ps[i].1))
  }

  function MemberText(key: string, value: string): string {
    Quote(key) + ": " + value
  }

  /** An object's text from its serialised members: sorted by key, then joined. */
  function ObjectText(rendered: seq<(string, string)>): string {
    "{" + JoinComma(Members(SortByKey(rendered))) + "}"
  }

  /** `json.dumps(j, sort_keys=True)`: every value's text opens and closes with its delimiters. */
  function Serialize(j: Json): (r: string)
    ensures |r| >= 2
    ensures j.JStr? ==> r[0] == '"' && r[|r| - 1] == '"'
    ensures j.JArr? ==> r[0] == '[' && r[|r| - 1] == ']'
    ensures j.JObj? ==> r[0] == '{' && r[|r| - 1] == '}'
    decreases j
  {
    match j
    case JStr(s) => Quote(s)
    case JNum(n) => FloatText(n)
    case JArr(items) =>
      "[" + JoinComma(seq(|items|, i requires 0 <= i < |items| => Serialize(items[i]))) + "]"
    case JObj(fields) =>
      ObjectText(seq(|fields|, i requires 0 <= i < |fields| => (fields[i].0, Serialize(fields[i].1))))
  }

  /** Each member's key paired with its serialised value, in insertion order. */
  function RenderFields(fields: seq<(string, Json)>): (r: seq<(string, string)>)
    ensures |r| == |fields|
  {
    seq(|fields|, i requires 0 <= i < |fields| => (fields[i].0, Serialize(fields[i].1)))
  }

  lemma SerializeObject(fields: seq<(string, Json)>)
    ensures Serialize(JObj(fields)) == ObjectText(RenderFields(fields))
  {
  }

  /**
   * An object's text depends only on which (key, serialised value) pairs it
   * holds, not on the order they were inserted in.
   */
  lemma ObjectTextDeterminedBySet(a: seq<(string, string)>, b: seq<(string, string)>)
    requires DistinctKeys(a) && DistinctKeys(b)
    requires forall x :: x in a <==> x in b
    ensures ObjectText(a) == ObjectText(b)
  {
    SortByKeyDeterminedBySet(a, b);
  }

  /**
   * `sort_keys=True`: two dicts holding the same members, inserted in any
   * two orders, serialise to the same text.
   */
  lemma KeyOrderIrrelevant(fs: seq<(string, Json)>, gs: seq<(string, Json)>)
    requires DistinctKeys(fs) && DistinctKeys(gs)
    requires multiset(fs) == multiset(gs)
    ensures Serialize(JObj(fs)) == Serialize(JObj(gs))
  {
    PermutedMembersSame(fs, gs);
    SameUpToKeyOrderSerialize(JObj(fs), JObj(gs));
  }

  /** The value stored under key `k`, as `dct.get(k)` finds it. */
  function Lookup(fs: seq<(string, Json)>, k: string): Option<Json> {
    if fs == [] then None
    else if fs[0].0 == k then Some(fs[0].1)
    else Lookup(fs[1..], k)
  }

  /** A found value sits at some index under its key. */
  lemma {:induction false} LookupIndex(fs: seq<(string, Json)>, k: string) returns (i: nat)
    requires Lookup(fs, k).Some?
    ensures i < |fs| && fs[i] == (k, Lookup(fs, k).value)
  {
    if fs[0].0 == k {
      i := 0;
    } else {
      var j := LookupIndex(fs[1..], k);
      i := j + 1;
    }
  }

  /** With distinct keys, every member is what looking up its key finds. */
  lemma {:induction false} LookupMember(fs: seq<(string, Json)>, i: nat)
    requires DistinctKeys(fs) && i < |fs|
    ensures Lookup(fs, fs[i].0) == Some(fs[i].1)
  {
    if i > 0 {
      assert fs[0].0 != fs[i].0;
      assert DistinctKeys(fs[1..]);
      LookupMember(fs[1..], i - 1);
    }
  }

  lemma LookupIn(fs: seq<(string, Json)>, p: (string, Json))
    requires DistinctKeys(fs) && p in fs
    ensures Lookup(fs, p.0) == Some(p.1)
  {
    var k :| 0 <= k < |fs| && fs[k] == p;
    LookupMember(fs, k);
  }

  /**
   * Two values that are the same apart from the insertion order of their
   * objects' keys, at every depth: Python dicts with distinct keys compare
   * this way. Identical values are always the same.
   */
  predicate SameUpToKeyOrder(a: Json, b: Json)
    decreases a
  {
    a == b ||
    match a
    case JStr(_) => false
    case JNum(_) => false
    case JArr(xs) =>
      && b.JArr? && |b.items| == |xs|
      && forall i :: 0 <= i < |xs| ==> SameUpToKeyOrder(xs[i], b.items[i])
    case JObj(fs) =>
      && b.JObj? && DistinctKeys(fs) && DistinctKeys(b.fields)
      && (forall i :: 0 <= i < |fs| ==>
            Lookup(b.fields, fs[i].0).Some? && SameUpToKeyOrder(fs[i].1, Lookup(b.fields, fs[i].0).value))
      && (forall j :: 0 <= j < |b.fields| ==> Lookup(fs, b.fields[j].0).Some?)
  }

  /** The object case of SameUpToKeyOrder, as an introduction rule. */
  lemma ObjectSame(fs: seq<(string, Json)>, gs: seq<(string, Json)>)
    requires DistinctKeys(fs) && DistinctKeys(gs)
    requires forall i :: 0 <= i < |fs| ==>
               Lookup(gs, fs[i].0).Some? && SameUpToKeyOrder(fs[i].1, Lookup(gs, fs[i].0).value)
    requires forall j :: 0 <= j < |gs| ==> Lookup(fs, gs[j].0).Some?
    ensures SameUpToKeyOrder(JObj(fs), JObj(gs))
  {
  }

  /** Array texts are equal when their items' texts are. */
  lemma ArrayTextOfEqualItems(xs: seq<Json>, ys: seq<Json>)
    requires |xs| == |ys|
    requires forall i :: 0 <= i < |xs| ==> Serialize(xs[i]) == Serialize(ys[i])
    ensures Serialize(JArr(xs)) == Serialize(JArr(ys))
  {
    var px := seq(|xs|, i requires 0 <= i < |xs| => Serialize(xs[i]));
    var py := seq(|ys|, i requires 0 <= i < |ys| => Serialize(ys[i]));
    assert px == py;
  }

  lemma RenderedMember(fs: seq<(string, Json)>, i: nat)
    requires i < |fs|
    ensures RenderFields(fs)[i] == (fs[i].0, Serialize(fs[i].1))
  {
  }

  lemma RenderedDistinct(fs: seq<(string, Json)>)
    requires DistinctKeys(fs)
    ensures DistinctKeys(RenderFields(fs))
  {
    var r := RenderFields(fs);
    forall i, j | 0 <= i < j < |r|
      ensures r[i].0 != r[j].0
    {
      RenderedMember(fs, i);
      RenderedMember(fs, j);
    }
  }

  /** Members matched by key with equal value texts: every rendered member of `fs` is one of `gs`. */
  lemma RenderedIncluded(fs: seq<(string, Json)>, gs: seq<(string, Json)>)
    requires forall i :: 0 <= i < |fs| ==>
               Lookup(gs, fs[i].0).Some? && Serialize(fs[i].1) == Serialize(Lookup(gs, fs[i].0).value)
    ensures forall x :: x in RenderFields(fs) ==> x in RenderFields(gs)
  {
    forall x | x in RenderFields(fs)
      ensures x in RenderFields(gs)
    {
      var i :| 0 <= i < |fs| && RenderFields(fs)[i] == x;
      RenderedMember(fs, i);
      var k := LookupIndex(gs, fs[i].0);
      RenderedMember(gs, k);
    }
  }

  /** A rendered member of `gs` is the rendered member of `fs` under the same key. */
  lemma RenderedBackAt(fs: seq<(string, Json)>, gs: seq<(string, Json)>, j: nat, i: nat)
    requires DistinctKeys(gs) && j < |gs| && i < |fs| && fs[i].0 == gs[j].0
    requires Lookup(gs, fs[i].0).Some? && Serialize(fs[i].1) == Serialize(Lookup(gs, fs[i].0).value)
    ensures RenderFields(gs)[j] == RenderFields(fs)[i]
  {
    LookupMember(gs, j);
    RenderedMember(gs, j);
    RenderedMember(fs, i);
  }

  /** ... and every rendered member of `gs` is one of `fs`. */
  lemma RenderedIncludedBack(fs: seq<(string, Json)>, gs: seq<(string, Json)>)
    requires DistinctKeys(gs)
    requires forall i :: 0 <= i < |fs| ==>
               Lookup(gs, fs[i].0).Some? && Serialize(fs[i].1) == Serialize(Lookup(gs, fs[i].0).value)
    requires forall j :: 0 <= j < |gs| ==> Lookup(fs, gs[j].0).Some?
    ensures forall x :: x in RenderFields(gs) ==> x in RenderFields(fs)
  {
    forall x | x in RenderFields(gs)
      ensures x in RenderFields(fs)
    {
      var j :| 0 <= j < |gs| && RenderFields(gs)[j] == x;
      var i := LookupIndex(fs, gs[j].0);
      RenderedBackAt(fs, gs, j, i);
    }
  }

  /** Object texts are equal when members match by key with equal value texts. */
  lemma ObjectTextOfMatchingMembers(fs: seq<(string, Json)>, gs: seq<(string, Json)>)
    requires DistinctKeys(fs) && DistinctKeys(gs)
    requires forall i :: 0 <= i < |fs| ==>
               Lookup(gs, fs[i].0).Some? && Serialize(fs[i].1) == Serialize(Lookup(gs, fs[i].0).value)
    requires forall j :: 0 <= j < |gs| ==> Lookup(fs, gs[j].0).Some?
    ensures Serialize(JObj(fs)) == Serialize(JObj(gs))
  {
    RenderedDistinct(fs);
    RenderedDistinct(gs);
    RenderedIncluded(fs, gs);
    RenderedIncludedBack(fs, gs);
    SerializeObject(fs);
    SerializeObject(gs);
    ObjectTextDeterminedBySet(RenderFields(fs), RenderFields(gs));
  }

  /**
   * `sort_keys=True` at every depth: values that differ only in the insertion
   * order of their objects' keys, nested objects included, serialise to the
   * same text.
   */
  lemma {:induction false} SameUpToKeyOrderSerialize(a: Json, b: Json)
    requires SameUpToKeyOrder(a, b)
    ensures Serialize(a) == Serialize(b)
    decreases a
  {
    if a != b {
      match a
      case JArr(xs) =>
        var ys := b.items;
        forall i | 0 <= i < |xs|
          ensures Serialize(xs[i]) == Serialize(ys[i])
        {
          SameUpToKeyOrderSerialize(xs[i], ys[i]);
        }
        ArrayTextOfEqualItems(xs, ys);
      case JObj(fs) =>
        var gs := b.fields;
        forall i | 0 <= i < |fs|
          ensures Serialize(fs[i].1) == Serialize(Lookup(gs, fs[i].0).value)
        {
          SameUpToKeyOrderSerialize(fs[i].1, Lookup(gs, fs[i].0).value);
        }
        ObjectTextOfMatchingMembers(fs, gs);
    }
  }

  /** Dicts with the same keys in the same order whose values are pairwise the same up to key order. */
  lemma PointwiseSame(fs: seq<(string, Json)>, gs: seq<(string, Json)>)
    requires DistinctKeys(fs) && |fs| == |gs|
    requires forall i :: 0 <= i < |fs| ==> fs[i].0 == gs[i].0 && SameUpToKeyOrder(fs[i].1, gs[i].1)
    ensures SameUpToKeyOrder(JObj(fs), JObj(gs))
  {
    assert DistinctKeys(gs);
    forall i | 0 <= i < |fs|
      ensures Lookup(gs, fs[i].0) == Some(gs[i].1)
    {
      LookupMember(gs, i);
    }
    forall j | 0 <= j < |gs|
      ensures Lookup(fs, gs[j].0).Some?
    {
      LookupMember(fs, j);
    }
    ObjectSame(fs, gs);
  }

  /** Three-member dicts with distinct keys whose last values are the same up to key order. */
  lemma LastMemberSame(k1: string, v1: Json, k2: string, v2: Json, k3: string, v3: Json, w3: Json)
    requires k1 != k2 && k1 != k3 && k2 != k3
    requires SameUpToKeyOrder(v3, w3)
    ensures SameUpToKeyOrder(JObj([(k1, v1), (k2, v2), (k3, v3)]), JObj([(k1, v1), (k2, v2), (k3, w3)]))
  {
    var fs := [(k1, v1), (k2, v2), (k3, v3)];
    var gs := [(k1, v1), (k2, v2), (k3, w3)];
    assert SameUpToKeyOrder(v1, v1) && SameUpToKeyOrder(v2, v2);
    PointwiseSame(fs, gs);
  }

  /** Reordering a dict's members, values unchanged, is a case of being the same up to key order. */
  lemma PermutedMembersSame(fs: seq<(string, Json)>, gs: seq<(string, Json)>)
    requires DistinctKeys(fs) && DistinctKeys(gs)
    requires multiset(fs) == multiset(gs)
    ensures SameUpToKeyOrder(JObj(fs), JObj(gs))
  {
    forall i | 0 <= i < |fs|
      ensures Lookup(gs, fs[i].0) == Some(fs[i].1) && SameUpToKeyOrder(fs[i].1, fs[i].1)
    {
      assert fs[i] in multiset(gs);
      LookupIn(gs, fs[i]);
    }
    forall j | 0 <= j < |gs|
      ensures Lookup(fs, gs[j].0).Some?
    {
      assert gs[j] in multiset(fs);
      LookupIn(fs, gs[j]);
    }
    ObjectSame(fs, gs);
  }

  // A reader for strings and string arrays, showing that the text Serialize
  // writes for them is unambiguous.

  /** The character an escape sequence `\c` stands for. */
  function Unescape(c: char): Option<char> {
    if c == '"' then Some('"')
    else if c == '\\' then Some('\\')
    else if c == 'n' then Some('\n')
    else if c == 'r' then Some('\r')
    else if c == 't' then Some('\t')
    else if c == 'b' then Some('\U{08}')
    else if c == 'f' then Some('\U{0C}')
    else None
  }

  /** Reads a string literal's body up to its closing quote: the value, and the text after the quote. */
  function ReadStringBody(s: string): (r: Option<(string, string)>)
    ensures r.Some? ==> |r.value.1| < |s|
    decreases |s|
  {
    if s == [] then None
    else if s[0] == '"' then Some(([], s[1..]))
    else if s[0] == '\\' then
      if |s| < 2 || Unescape(s[1]).None? then None
      else match ReadStringBody(s[2..])
        case None => None
        case Some((v, rest)) => Some(([Unescape(s[1]).value] + v, rest))
    else match ReadStringBody(s[1..])
      case None => None
      case Some((v, rest)) => Some(([s[0]] + v, rest))
  }

  function ReadString(s: string): (r: Option<(string, string)>)
    ensures r.Some? ==> |r.value.1| < |s|
  {
    if s != [] && s[0] == '"' then ReadStringBody(s[1..]) else None
  }

  /** Reads `"a", "b"]`: the items of a non-empty string array and the text after it. */
  function ReadStringItems(s: string): (r: Option<(seq<string>, string)>)
    decreases |s|
  {
    match ReadString(s)
    case None => None
    case Some((v, rest)) =>
      if |rest| >= 2 && rest[..2] == ", " then
        match ReadStringItems(rest[2..])
        case None => None
        case Some((vs, after)) => Some(([v] + vs, after))
      else if rest != [] && rest[0] == ']' then Some(([v], rest[1..]))
      else None
  }

  function ReadStringArray(s: string): Option<(seq<string>, string)> {
    if |s| >= 2 && s[..2] == "[]" then Some(([], s[2..]))
    else if s != [] && s[0] == '[' then ReadStringItems(s[1..])
    else None
  }

  /** A JSON array of strings, such as a tag list. */
  function StringArray(ts: seq<string>): Json {
    JArr(seq(|ts|, i requires 0 <= i < |ts| => JStr(ts[i])))
  }

  function Quotes(ts: seq<string>): (r: seq<string>)
    ensures |r| == |ts|
  {
    seq(|ts|, i requires 0 <= i < |ts| => Quote(ts[i]))
  }

  /** One escaped character is read back as that character, then reading goes on. */
  lemma ReadEscapeChar(c: char, tail: string)
    requires ReadStringBody(tail).Some?
    ensures ReadStringBody(EscapeChar(c) + tail)
         == Some(([c] + ReadStringBody(tail).value.0, ReadStringBody(tail).value.1))
  {
    var e := EscapeChar(c);
    var s := e + tail;
    if |e| == 2 {
      assert s[0] == '\\' && s[1] == e[1];
      assert Unescape(e[1]) == Some(c);
      assert s[2..] == tail;
    } else {
      assert e == [c];
      assert s[0] == c && s[1..] == tail;
    }
  }

  lemma {:induction false} ReadEscaped(v: string, rest: string)
    ensures ReadStringBody(Escape(v) + "\"" + rest) == Some((v, rest))
  {
    if v != [] {
      var tail := Escape(v[1..]) + "\"" + rest;
      assert Escape(v) + "\"" + rest == EscapeChar(v[0]) + tail;
      ReadEscaped(v[1..], rest);
      ReadEscapeChar(v[0], tail);
      assert [v[0]] + v[1..] == v;
    } else {
      assert ("\"" + rest)[1..] == rest;
    }
  }

  lemma ReadQuote(v: string, rest: string)
    ensures ReadString(Quote(v) + rest) == Some((v, rest))
  {
    assert (Quote(v) + rest)[1..] == Escape(v) + "\"" + rest;
    ReadEscaped(v, rest);
  }

  /** The last item of an array, followed by the closing bracket. */
  lemma ReadItemsLast(t: string, rest: string)
    ensures ReadStringItems(Quote(t) + ("]" + rest)) == Some(([t], rest))
  {
    var after := "]" + rest;
    ReadQuote(t, after);
    assert after[0] == ']';
    assert |after| >= 2 ==> after[..2][0] == ']';
    assert after[1..] == rest;
  }

  /** An item followed by `, ` and further items. */
  lemma ReadItemsCons(t: string, tail: string)
    requires ReadStringItems(tail).Some?
    ensures ReadStringItems(Quote(t) + (", " + tail))
         == Some(([t] + ReadStringItems(tail).value.0, ReadStringItems(tail).value.1))
  {
    ReadQuote(t, ", " + tail);
    assert (", " + tail)[..2] == ", ";
    assert (", " + tail)[2..] == tail;
  }

  lemma Regroup(q: string, c: string, j: string, b: string, r: string)
    ensures q + c + j + b + r == q + (c + (j + b + r))
  {
  }

  /** The items after the first, in the same comma-separated form. */
  lemma JoinQuotesCons(ts: seq<string>)
    requires |ts| > 1
    ensures JoinComma(Quotes(ts)) == Quote(ts[0]) + ", " + JoinComma(Quotes(ts[1..]))
  {
    assert Quotes(ts)[1..] == Quotes(ts[1..]);
  }

  lemma {:induction false} ReadItemsJoined(ts: seq<string>, rest: string)
    requires ts != []
    ensures ReadStringItems(JoinComma(Quotes(ts)) + "]" + rest) == Some((ts, rest))
    decreases |ts|
  {
    if |ts| == 1 {
      assert JoinComma(Quotes(ts)) == Quote(ts[0]);
      assert Quote(ts[0]) + "]" + rest == Quote(ts[0]) + ("]" + rest);
      ReadItemsLast(ts[0], rest);
      assert [ts[0]] == ts;
    } else {
      var j := JoinComma(Quotes(ts[1..]));
      JoinQuotesCons(ts);
      Regroup(Quote(ts[0]), ", ", j, "]", rest);
      ReadItemsJoined(ts[1..], rest);
      ReadItemsCons(ts[0], j + "]" + rest);
      assert [ts[0]] + ts[1..] == ts;
    }
  }

  /** The text of a string array: its quoted items, comma-separated, in brackets. */
  lemma SerializeStringArray(ts: seq<string>)
    ensures Serialize(StringArray(ts)) == "[" + JoinComma(Quotes(ts)) + "]"
  {
    var items := StringArray(ts).items;
    assert seq(|items|, i requires 0 <= i < |items| => Serialize(items[i])) == Quotes(ts);
  }

  /** A non-empty item list starts with the opening quote of its first item. */
  lemma JoinQuotesStart(ts: seq<string>)
    requires ts != []
    ensures |JoinComma(Quotes(ts))| >= 2 && JoinComma(Quotes(ts))[0] == '"'
  {
    var q := Quotes(ts);
    if |ts| > 1 {
      assert JoinComma(q) == q[0] + (", " + JoinComma(q[1..]));
    }
  }

  /** Reading back the text of a string array recovers the array and leaves what follows it. */
  lemma ReadStringArraySerialized(ts: seq<string>, rest: string)
    ensures ReadStringArray(Serialize(StringArray(ts)) + rest) == Some((ts, rest))
  {
    SerializeStringArray(ts);
    var j := JoinComma(Quotes(ts));
    var s := Serialize(StringArray(ts)) + rest;
    assert s == "[" + (j + "]" + rest);
    if ts == [] {
      assert s[..2] == "[]" && s[2..] == rest;
    } else {
      JoinQuotesStart(ts);
      assert s[1] == '"';
      assert s[1..] == j + "]" + rest;
      ReadItemsJoined(ts, rest);
    }
  }

  /** String arrays serialise injectively, element order included. */
  lemma StringArrayInjective(a: seq<string>, b: seq<string>, ra: string, rb: string)
    requires Serialize(StringArray(a)) + ra == Serialize(StringArray(b)) + rb
    ensures a == b && ra == rb
  {
    ReadStringArraySerialized(a, ra);
    ReadStringArraySerialized(b, rb);
  }

  /** The tag-list case: equal array texts mean equal arrays. */
  lemma StringArrayTextInjective(a: seq<string>, b: seq<string>)
    requires Serialize(StringArray(a)) == Serialize(StringArray(b))
    ensures a == b
  {
    assert Serialize(StringArray(a)) + "" == Serialize(StringArray(a));
    assert Serialize(StringArray(b)) + "" == Serialize(StringArray(b));
    StringArrayInjective(a, b, "", "");
  }

  /** `", ".join` of three parts. */
  lemma JoinThree(parts: seq<string>)
    requires |parts| == 3
    ensures JoinComma(parts) == parts[0] + ", " + parts[1] + ", " + parts[2]
  {
    assert JoinComma(parts[1..]) == parts[1] + ", " + parts[2];
  }

  /**
   * A three-member object with keys a < b < c is written a, b, c, whatever the
   * order its members were inserted in.
   */
  lemma ObjectTextOfThree(ps: seq<(string, string)>, a: string, va: string, b: string, vb: string, c: string, vc: string)
    requires StrLt(a, b) && StrLt(b, c)
    requires DistinctKeys(ps)
    requires forall x :: x in ps <==> x in [(a, va), (b, vb), (c, vc)]
    ensures ObjectText(ps)
         == "{" + (MemberText(a, va) + ", " + MemberText(b, vb) + ", " + MemberText(c, vc)) + "}"
  {
    var asc := [(a, va), (b, vb), (c, vc)];
    StrLtTransitive(a, b, c);
    StrLtIrreflexive(a);
    StrLtIrreflexive(b);
    assert SortedByKey(asc);
    ObjectTextDeterminedBySet(ps, asc);
    SortByKeySorted(asc);
    SortByKeyMembers(asc);
    SortedUnique(SortByKey(asc), asc);
    var ms := Members(asc);
    assert ms[0] == MemberText(a, va) && ms[1] == MemberText(b, vb) && ms[2] == MemberText(c, vc);
    JoinThree(ms);
  }

  /** The insertion order create_aku uses: the largest key first, then the smallest, then the middle one. */
  lemma ObjectTextRotated(k1: string, v1: string, k2: string, v2: string, k3: string, v3: string)
    requires StrLt(k2, k3) && StrLt(k3, k1)
    ensures ObjectText([(k1, v1), (k2, v2), (k3, v3)])
         == "{" + (MemberText(k2, v2) + ", " + MemberText(k3, v3) + ", " + MemberText(k1, v1)) + "}"
  {
    var ps := [(k1, v1), (k2, v2), (k3, v3)];
    StrLtTransitive(k2, k3, k1);
    StrLtIrreflexive(k1);
    StrLtIrreflexive(k3);
    assert DistinctKeys(ps);
    ObjectTextOfThree(ps, k2, v2, k3, v3, k1, v1);
  }
}
