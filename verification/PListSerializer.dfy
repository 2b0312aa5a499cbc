/**
 * The property-list writer (plist/plistserializer.cpp): a recursive
 * translation of a variant tree into the element tree of an Apple XML
 * property list. A reader for the same element tree is defined beside it,
 * and reading back what the writer wrote gives the value again (the reader
 * is a left inverse of the writer) for every value built from booleans,
 * strings, integers, lists and maps.
 */
module PListSerializer {

  datatype Option<T> = None | Some(value: T)

  /** QVariant::Int is a 32-bit signed integer. */
  newtype Int32 = x: int | -0x8000_0000 <= x < 0x8000_0000

  datatype Date = Date(year: int, month: int, day: int)
  datatype DateTime = DateTime(date: Date, hour: int, minute: int, second: int, msec: int)

  /** The variant kinds the writer distinguishes. A map is given by its keys in
      the order QVariantMap::keys() yields them, each with its value. `Number`
      stands for any other variant convertible to double, `Opaque` for one
      that is not. */
  datatype Variant =
    | Bool(b: bool)
    | DateValue(date: Date)
    | DateTimeValue(dateTime: DateTime)
    | ByteArray(bytes: seq<bv8>)
    | String(s: string)
    | Int(i: Int32)
    | Number(x: real)
    | Opaque
    | List(items: seq<Variant>)
    | Map(entries: seq<(string, Variant)>)

  /** The library formatting the writer relies on: ISO 8601 dates and date-times,
      Base64 and QString::setNum for doubles. */
  datatype Formats = Formats(
    isoDate: Date -> string,
    isoDateTime: DateTime -> string,
    base64: seq<bv8> -> string,
    number: real -> string)

  /** A DOM node: the null element, a text node, or an element with attributes
      and children in document order. */
  datatype Node =
    | Null
    | Text(data: string)
    | Element(tag: string, attrs: seq<(string, string)>, children: seq<Node>)

  // ---------------------------------------------------------------------
  // Decimal integers (QString::number(int))
  // ---------------------------------------------------------------------

  function DigitChar(d: nat): char
    requires d < 10
  {
    "0123456789"[d]
  }

  predicate IsDigit(c: char) {
    '0' <= c <= '9'
  }

  function DigitValue(c: char): nat
    requires IsDigit(c)
  {
    (c as int - '0' as int) as nat
  }

  function NatToString(n: nat): (s: string)
    ensures |s| >= 1
    ensures forall i :: 0 <= i < |s| ==> IsDigit(s[i])
  {
    if n < 10 then [DigitChar(n)] else NatToString(n / 10) + [DigitChar(n % 10)]
  }

  /** The decimal text of an integer, with a leading '-' for negative values. */
  function IntToString(i: int): (s: string)
    ensures |s| >= 1
  {
    if i < 0 then "-" + NatToString(-i) else NatToString(i)
  }

  function ParseNat(s: string): nat
    requires forall i :: 0 <= i < |s| ==> IsDigit(s[i])
  {
    if |s| == 0 then 0 else 10 * ParseNat(s[..|s| - 1]) + DigitValue(s[|s| - 1])
  }

  predicate AllDigits(s: string) {
    forall i :: 0 <= i < |s| ==> IsDigit(s[i])
  }

  /** Reads an optionally negative decimal integer; None for any other text. */
  function ParseInt(s: string): Option<int> {
    if |s| >= 2 && s[0] == '-' && AllDigits(s[1..]) then Some(-(ParseNat(s[1..]) as int))
    else if |s| >= 1 && AllDigits(s) then Some(ParseNat(s))
    else None
  }

  lemma {:induction false} NatRoundTrip(n: nat)
    ensures ParseNat(NatToString(n)) == n
    decreases n
  {
    if n >= 10 {
      var s := NatToString(n);
      NatRoundTrip(n / 10);
      assert s[..|s| - 1] == NatToString(n / 10);
      assert DigitValue(DigitChar(n % 10)) == n % 10;
    } else {
      assert DigitValue(DigitChar(n)) == n;
    }
  }

  /** Reading back the decimal text of an integer gives the integer. */
  lemma IntRoundTrip(i: int)
    ensures ParseInt(IntToString(i)) == Some(i)
  {
    NatRoundTrip(if i < 0 then -i else i);
    if i < 0 {
      assert IntToString(i)[1..] == NatToString(-i);
    } else {
      assert IntToString(i)[0] != '-';
    }
  }

  // ---------------------------------------------------------------------
  // The writer
  // ---------------------------------------------------------------------

  /** textElement: an element of the given tag holding one text node, whose
      text is the contents. */
  function TextElement(tag: string, contents: string): (n: Node)
    ensures TextOf(n, tag) == Some(contents)
  {
    Element(tag, [], [Text(contents)])
  }

  /** The text of an element made of exactly one text node. */
  function TextOf(n: Node, tag: string): Option<string> {
    if n.Element? && n.tag == tag && n.attrs == [] && |n.children| == 1 && n.children[0].Text? then
      Some(n.children[0].data)
    else None
  }

  /** The text element is the only element of its tag whose text reads back as
      the given contents. */
  lemma TextElementRoundTrip(tag: string, contents: string, n: Node)
    ensures TextOf(n, tag) == Some(contents) && n.attrs == [] ==> n == TextElement(tag, contents)
  {
    if TextOf(n, tag) == Some(contents) && n.attrs == [] {
      assert n.children == [Text(contents)];
    }
  }

  /** QDomNode::appendChild: appending the null element changes nothing. */
  function AppendChild(children: seq<Node>, child: Node): seq<Node> {
    if child.Null? then children else children + [child]
  }

  /** serializePrimitive: the first matching kind decides; a value of no
      primitive kind gives the null element. PrimitiveTags states the element
      each kind gets. */
  function SerializePrimitive(v: Variant, f: Formats): (n: Node)
    ensures n.Null? <==> v.Opaque? || v.List? || v.Map?
  {
    match v
    case Bool(b) => Element(if b then "true" else "false", [], [])
    case DateValue(d) => TextElement("date", f.isoDate(d))
    case DateTimeValue(dt) => TextElement("date", f.isoDateTime(dt))
    case ByteArray(bytes) => TextElement("data", f.base64(bytes))
    case String(s) => TextElement("string", s)
    case Int(i) => TextElement("integer", IntToString(i as int))
    case Number(x) => TextElement("real", f.number(x))
    case _ => Null
  }

  /** serializeElement: maps and lists are dispatched before any primitive. The
      result is the null element exactly for a value of no known kind. */
  function SerializeElement(v: Variant, f: Formats): (n: Node)
    ensures n.Null? <==> v.Opaque?
    decreases v, 1
  {
    match v
    case Map(entries) => SerializeMap(entries, f)
    case List(items) => SerializeList(items, f)
    case _ => SerializePrimitive(v, f)
  }

  /** serializeList: an `array` element with the items' elements appended in
      order. */
  function SerializeList(items: seq<Variant>, f: Formats): (n: Node)
    ensures n.Element? && n.tag == "array" && n.attrs == []
    decreases items, 1
  {
    Element("array", [], ListChildren(items, f))
  }

  function ListChildren(items: seq<Variant>, f: Formats): (cs: seq<Node>)
    ensures |cs| <= |items|
    ensures forall i :: 0 <= i < |cs| ==> !cs[i].Null?
    decreases items, 0
  {
    if |items| == 0 then []
    else AppendChild([], SerializeElement(items[0], f)) + ListChildren(items[1..], f)
  }

  /** serializeMap: a `dict` element holding, for each key in turn, a `key`
      element and the key's value. */
  function SerializeMap(entries: seq<(string, Variant)>, f: Formats): (n: Node)
    ensures n.Element? && n.tag == "dict" && n.attrs == []
    decreases entries, 1
  {
    Element("dict", [], MapChildren(entries, f))
  }

  function MapChildren(entries: seq<(string, Variant)>, f: Formats): (cs: seq<Node>)
    ensures |entries| <= |cs| <= 2 * |entries|
    decreases entries, 0
  {
    if |entries| == 0 then []
    else
      var (key, value) := entries[0];
      assert entries[0] in entries && value < entries[0];
      AppendChild([TextElement("key", key)], SerializeElement(value, f)) + MapChildren(entries[1..], f)
  }

  /** toPList: the `plist` root, version 1.0, holding the serialised value. */
  function ToPList(v: Variant, f: Formats): (root: Node)
    ensures root.Element? && root.tag == "plist" && root.attrs == [("version", "1.0")]
    ensures v.Opaque? <==> root.children == []
    ensures !v.Opaque? ==> root.children == [SerializeElement(v, f)]
  {
    Element("plist", [("version", "1.0")], AppendChild([], SerializeElement(v, f)))
  }

  // ---------------------------------------------------------------------
  // Shape of the written tree
  // ---------------------------------------------------------------------


  /** A list whose items are all of a known kind gives one child per item, in
      list order. */
  lemma {:induction false} ListOneChildPerItem(items: seq<Variant>, f: Formats)
    requires forall i :: 0 <= i < |items| ==> !items[i].Opaque?
    ensures var cs := SerializeList(items, f).children;
      |cs| == |items| && forall i :: 0 <= i < |items| ==> cs[i] == SerializeElement(items[i], f)
    decreases |items|
  {
    if |items| > 0 {
      ListOneChildPerItem(items[1..], f);
      var cs := ListChildren(items, f);
      assert cs == [SerializeElement(items[0], f)] + ListChildren(items[1..], f);
      forall i | 0 <= i < |items|
        ensures cs[i] == SerializeElement(items[i], f)
      {
        if i > 0 {
          assert items[1..][i - 1] == items[i];
        }
      }
    }
  }

  /** The items are appended in order: the children of a concatenation are
      the children of its parts, one after the other. */
  lemma {:induction false} ListChildrenConcat(a: seq<Variant>, b: seq<Variant>, f: Formats)
    ensures ListChildren(a + b, f) == ListChildren(a, f) + ListChildren(b, f)
    decreases |a|
  {
    if |a| > 0 {
      var head := AppendChild([], SerializeElement(a[0], f));
      assert (a + b)[0] == a[0] && (a + b)[1..] == a[1..] + b;
      assert ListChildren(a + b, f) == head + ListChildren(a[1..] + b, f);
      assert ListChildren(a, f) == head + ListChildren(a[1..], f);
      ListChildrenConcat(a[1..], b, f);
    } else {
      assert a + b == b;
    }
  }

  /** An item of unknown kind contributes no child: the array holds the
      children of the items before it and after it, and nothing in between,
      so it is shorter than the list. */
  lemma ListDropsUnknown(items: seq<Variant>, f: Formats, k: nat)
    requires k < |items| && items[k].Opaque?
    ensures SerializeList(items, f).children == ListChildren(items[..k], f) + ListChildren(items[k + 1..], f)
    ensures |SerializeList(items, f).children| < |items|
  {
    var before, after := items[..k], items[k + 1..];
    assert items == before + ([items[k]] + after);
    ListChildrenConcat(before, [items[k]] + after, f);
    ListChildrenConcat([items[k]], after, f);
    NoChildOfUnknown(items[k], f);
    EmptyInBetween(ListChildren(before, f), ListChildren([items[k]], f), ListChildren(after, f));
  }

  /** A lone item of unknown kind gives no child. */
  lemma NoChildOfUnknown(item: Variant, f: Formats)
    requires item.Opaque?
    ensures ListChildren([item], f) == []
  {
    assert [item][1..] == [];
  }

  /** An empty part between two others disappears. */
  lemma EmptyInBetween<T>(a: seq<T>, e: seq<T>, b: seq<T>)
    requires e == []
    ensures a + (e + b) == a + b
  {
  }

  /** A map whose values are all of a known kind gives 2·|keys| children,
      alternating a `key` element holding the key and that key's value. */
  lemma {:induction false} MapAlternatesKeysAndValues(entries: seq<(string, Variant)>, f: Formats)
    requires forall i :: 0 <= i < |entries| ==> !entries[i].1.Opaque?
    ensures var cs := SerializeMap(entries, f).children;
      |cs| == 2 * |entries| &&
      forall i :: 0 <= i < |entries| ==>
        cs[2 * i] == TextElement("key", entries[i].0) && cs[2 * i + 1] == SerializeElement(entries[i].1, f)
    decreases |entries|
  {
    if |entries| > 0 {
      MapAlternatesKeysAndValues(entries[1..], f);
      var rest := MapChildren(entries[1..], f);
      assert MapChildren(entries, f) == [TextElement("key", entries[0].0), SerializeElement(entries[0].1, f)] + rest;
      PrependPair(entries, f, rest);
    }
  }

  /** Putting the first entry's key and value in front of the alternating
      children of the other entries gives the alternating children of all. */
  lemma PrependPair(entries: seq<(string, Variant)>, f: Formats, rest: seq<Node>)
    requires |entries| > 0 && |rest| == 2 * (|entries| - 1)
    requires forall i :: 0 <= i < |entries| - 1 ==>
               rest[2 * i] == TextElement("key", entries[1..][i].0) && rest[2 * i + 1] == SerializeElement(entries[1..][i].1, f)
    ensures var cs := [TextElement("key", entries[0].0), SerializeElement(entries[0].1, f)] + rest;
      |cs| == 2 * |entries| &&
      forall i :: 0 <= i < |entries| ==>
        cs[2 * i] == TextElement("key", entries[i].0) && cs[2 * i + 1] == SerializeElement(entries[i].1, f)
  {
    var key, value := TextElement("key", entries[0].0), SerializeElement(entries[0].1, f);
    forall i | 0 < i < |entries|
      ensures ([key, value] + rest)[2 * i] == TextElement("key", entries[i].0)
      ensures ([key, value] + rest)[2 * i + 1] == SerializeElement(entries[i].1, f)
    {
      assert entries[1..][i - 1] == entries[i];
      PairShift(key, value, rest, 2 * (i - 1));
      PairShift(key, value, rest, 2 * (i - 1) + 1);
    }
  }

  lemma PairShift<T>(a: T, b: T, rest: seq<T>, j: nat)
    requires j < |rest|
    ensures ([a, b] + rest)[j + 2] == rest[j]
  {
  }

  /** The keys are visited in order: the children of a concatenation are the
      children of its parts, one after the other. */
  lemma {:induction false} MapChildrenConcat(a: seq<(string, Variant)>, b: seq<(string, Variant)>, f: Formats)
    ensures MapChildren(a + b, f) == MapChildren(a, f) + MapChildren(b, f)
    decreases |a|
  {
    if |a| > 0 {
      var head := AppendChild([TextElement("key", a[0].0)], SerializeElement(a[0].1, f));
      assert (a + b)[0] == a[0] && (a + b)[1..] == a[1..] + b;
      assert MapChildren(a + b, f) == head + MapChildren(a[1..] + b, f);
      assert MapChildren(a, f) == head + MapChildren(a[1..], f);
      MapChildrenConcat(a[1..], b, f);
    } else {
      assert a + b == b;
    }
  }

  /** A value of unknown kind keeps its key but leaves it without a value:
      between the children of the entries before and after it stands only
      its `key` element. */
  lemma MapKeepsKeyOfUnknown(entries: seq<(string, Variant)>, f: Formats, k: nat)
    requires k < |entries| && entries[k].1.Opaque?
    ensures SerializeMap(entries, f).children ==
              MapChildren(entries[..k], f) + [TextElement("key", entries[k].0)] + MapChildren(entries[k + 1..], f)
    ensures |SerializeMap(entries, f).children| < 2 * |entries|
    ensures TextElement("key", entries[k].0) in SerializeMap(entries, f).children
  {
    var before, after := entries[..k], entries[k + 1..];
    assert entries == before + ([entries[k]] + after);
    MapChildrenConcat(before, [entries[k]] + after, f);
    MapChildrenConcat([entries[k]], after, f);
    KeyOnlyOfUnknown(entries[k], f);
    KeyInBetween(MapChildren(before, f), MapChildren([entries[k]], f), MapChildren(after, f));
  }

  /** A lone entry of unknown kind gives only its `key` element. */
  lemma KeyOnlyOfUnknown(entry: (string, Variant), f: Formats)
    requires entry.1.Opaque?
    ensures MapChildren([entry], f) == [TextElement("key", entry.0)]
  {
    assert [entry][1..] == [];
  }

  /** One element between two parts: regrouping, length and membership. */
  lemma KeyInBetween<T>(a: seq<T>, m: seq<T>, b: seq<T>)
    requires |m| == 1
    ensures a + (m + b) == a + m + b
    ensures |a + m + b| == |a| + |b| + 1 && m[0] in a + m + b
  {
    assert (a + m + b)[|a|] == m[0];
  }

  /** A boolean is a childless element named after its value; every other
      primitive is a text element of its plist tag holding the value's text. */
  lemma PrimitiveTags(v: Variant, f: Formats)
    ensures var n := SerializePrimitive(v, f);
      && (v.Bool? ==> n.Element? && n.tag == (if v.b then "true" else "false") && n.attrs == [] && n.children == [])
      && (v.DateValue? ==> TextOf(n, "date") == Some(f.isoDate(v.date)))
      && (v.DateTimeValue? ==> TextOf(n, "date") == Some(f.isoDateTime(v.dateTime)))
      && (v.ByteArray? ==> TextOf(n, "data") == Some(f.base64(v.bytes)))
      && (v.String? ==> TextOf(n, "string") == Some(v.s))
      && (v.Int? ==> TextOf(n, "integer") == Some(IntToString(v.i as int)))
      && (v.Number? ==> TextOf(n, "real") == Some(f.number(v.x)))
  {
  }

  // ---------------------------------------------------------------------
  // Reading the tree back
  // ---------------------------------------------------------------------

  /** Values the reader can recover: booleans, strings, integers, and lists and
      maps of these. Dates, date-times, byte arrays and doubles go through
      library formatting and are left out. */
  predicate Plain(v: Variant) {
    match v
    case Bool(_) => true
    case String(_) => true
    case Int(_) => true
    case List(items) => forall i :: 0 <= i < |items| ==> Plain(items[i])
    case Map(entries) => forall i :: 0 <= i < |entries| ==> Plain(entries[i].1)
    case _ => false
  }

  function ReadInt(s: string): Option<Variant> {
    match ParseInt(s)
    case Some(i) => if -0x8000_0000 <= i < 0x8000_0000 then Some(Int(i as Int32)) else None
    case None => None
  }

  function ReadElement(n: Node): Option<Variant>
    decreases n, 1
  {
    if !n.Element? || n.attrs != [] then None
    else if n.tag == "true" && n.children == [] then Some(Bool(true))
    else if n.tag == "false" && n.children == [] then Some(Bool(false))
    else if n.tag == "string" && TextOf(n, "string").Some? then Some(String(TextOf(n, "string").value))
    else if n.tag == "integer" && TextOf(n, "integer").Some? then ReadInt(TextOf(n, "integer").value)
    else if n.tag == "array" then
      match ReadItems(n.children)
      case Some(items) => Some(List(items))
      case None => None
    else if n.tag == "dict" then
      match ReadEntries(n.children)
      case Some(entries) => Some(Map(entries))
      case None => None
    else None
  }

  function ReadItems(cs: seq<Node>): Option<seq<Variant>>
    decreases cs, 0
  {
    if |cs| == 0 then Some([])
    else
      match ReadElement(cs[0])
      case None => None
      case Some(v) =>
        match ReadItems(cs[1..])
        case None => None
        case Some(rest) => Some([v] + rest)
  }

  function ReadEntries(cs: seq<Node>): Option<seq<(string, Variant)>>
    decreases cs, 0
  {
    if |cs| == 0 then Some([])
    else if |cs| == 1 then None
    else
      match TextOf(cs[0], "key")
      case None => None
      case Some(key) =>
        match ReadElement(cs[1])
        case None => None
        case Some(v) =>
          match ReadEntries(cs[2..])
          case None => None
          case Some(rest) => Some([(key, v)] + rest)
  }

  /** Reading back the written element gives the value again. */
  lemma {:induction false} ElementRoundTrip(v: Variant, f: Formats)
    requires Plain(v)
    ensures ReadElement(SerializeElement(v, f)) == Some(v)
    decreases v, 1
  {
    match v
    case Bool(_) =>
    case String(s) =>
      assert TextOf(SerializeElement(v, f), "string") == Some(s);
    case Int(i) =>
      IntRoundTrip(i as int);
      assert TextOf(SerializeElement(v, f), "integer") == Some(IntToString(i as int));
    case List(items) =>
      ItemsRoundTrip(items, f);
    case Map(entries) =>
      EntriesRoundTrip(entries, f);
  }

  lemma {:induction false} ItemsRoundTrip(items: seq<Variant>, f: Formats)
    requires forall i :: 0 <= i < |items| ==> Plain(items[i])
    ensures ReadItems(ListChildren(items, f)) == Some(items)
    decreases items, 0
  {
    if |items| > 0 {
      assert [items[0]] + items[1..] == items;
      assert ListChildren(items, f) == [SerializeElement(items[0], f)] + ListChildren(items[1..], f);
      ItemsRoundTrip(items[1..], f);
      ItemReadsBack(items[0], f, ListChildren(items[1..], f), items[1..]);
    }
  }

  /** One more item in front of an array's children that read back. */
  lemma ItemReadsBack(v: Variant, f: Formats, rest: seq<Node>, vs: seq<Variant>)
    requires Plain(v) && ReadItems(rest) == Some(vs)
    ensures ReadItems([SerializeElement(v, f)] + rest) == Some([v] + vs)
    decreases v, 2
  {
    ElementRoundTrip(v, f);
    assert ([SerializeElement(v, f)] + rest)[1..] == rest;
  }

  lemma {:induction false} EntriesRoundTrip(entries: seq<(string, Variant)>, f: Formats)
    requires forall i :: 0 <= i < |entries| ==> Plain(entries[i].1)
    ensures ReadEntries(MapChildren(entries, f)) == Some(entries)
    decreases entries, 0
  {
    if |entries| > 0 {
      var (key, value) := entries[0];
      assert entries[0] in entries && value < entries[0];
      assert [(key, value)] + entries[1..] == entries;
      assert MapChildren(entries, f) == [TextElement("key", key), SerializeElement(value, f)] + MapChildren(entries[1..], f);
      EntriesRoundTrip(entries[1..], f);
      EntryReadsBack(key, value, f, MapChildren(entries[1..], f), entries[1..]);
    }
  }

  /** One more key and value in front of a dict's children that read back. */
  lemma EntryReadsBack(key: string, v: Variant, f: Formats, rest: seq<Node>, es: seq<(string, Variant)>)
    requires Plain(v) && ReadEntries(rest) == Some(es)
    ensures ReadEntries([TextElement("key", key), SerializeElement(v, f)] + rest) == Some([(key, v)] + es)
    decreases v, 2
  {
    ElementRoundTrip(v, f);
    TextElementRoundTrip("key", key, TextElement("key", key));
    assert ([TextElement("key", key), SerializeElement(v, f)] + rest)[2..] == rest;
  }

  /** The whole document: the root's one child reads back as the value. */
  lemma PListRoundTrip(v: Variant, f: Formats)
    requires Plain(v)
    ensures ReadElement(ToPList(v, f).children[0]) == Some(v)
  {
    ElementRoundTrip(v, f);
  }
}
