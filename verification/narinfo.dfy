/**
 * The store-object record as the server keeps it: a Python dict, which
 * remembers the order in which keys were first inserted.  Assigning to a key
 * that is already present replaces its value where it stands; a new key goes
 * at the end.  Only nine keys ever occur in it, so the model names them with
 * a datatype and spells them out when rendering.
 *
 * The narinfo document is the record rendered as one `Key: Value` line per
 * entry, in that order, joined by newlines and followed by one more newline;
 * the cache descriptor uses the same line format.
 */
module Narinfo {
  import opened Wrappers
  import opened PyText

  /** The keys of a store-object record. */
  datatype Field =
    | StorePath | NarHash | NarSize | FileSize | FileHash
    | References | Deriver | URL | Compression

  /** The key as the dict holds it and the document shows it. */
  function FieldName(f: Field): (name: string)
    ensures ':' !in name && '\n' !in name && name != []
  {
    match f
    case StorePath => "StorePath"
    case NarHash => "NarHash"
    case NarSize => "NarSize"
    case FileSize => "FileSize"
    case FileHash => "FileHash"
    case References => "References"
    case Deriver => "Deriver"
    case URL => "URL"
    case Compression => "Compression"
  }

  /** An insertion-ordered dictionary: the keys in the order they were
      first inserted, and the value each key holds. */
  datatype Record = Record(order: seq<Field>, values: map<Field, string>)

  /** A well-formed dict: every key listed once, and exactly the listed
      keys hold a value. */
  predicate WellFormed(d: Record) {
    && (forall i, j :: 0 <= i < j < |d.order| ==> d.order[i] != d.order[j])
    && (forall k :: k in d.values <==> k in d.order)
  }

  /** The keys in insertion order (`list(d.keys())`). */
  function Keys(d: Record): seq<Field> {
    d.order
  }

  /** `d.get(k)`. */
  function Get(d: Record, k: Field): (r: Option<string>)
    ensures WellFormed(d) ==> (r.None? <==> k !in Keys(d))
  {
    if k in d.values then Some(d.values[k]) else None
  }

  /** `d[k] = v`: a key already present keeps its place, a new key goes
      last; either way it now holds `v`. */
  function Put(d: Record, k: Field, v: string): (r: Record)
    ensures Get(r, k) == Some(v)
    ensures forall k' :: k' != k ==> Get(r, k') == Get(d, k')
    ensures WellFormed(d) && k in Keys(d) ==> Keys(r) == Keys(d)
    ensures WellFormed(d) && k !in Keys(d) ==> Keys(r) == Keys(d) + [k]
    ensures WellFormed(d) ==> WellFormed(r)
  {
    if k in d.values then Record(d.order, d.values[k := v])
    else Record(d.order + [k], d.values[k := v])
  }

  /** `d.items()` with the keys spelled out; a key without a value (which a
      well-formed dict never has) would show as empty. */
  function ItemsOf(order: seq<Field>, values: map<Field, string>): (ps: Pairs)
    ensures |ps| == |order|
  {
    if order == [] then []
    else [(FieldName(order[0]), if order[0] in values then values[order[0]] else "")]
         + ItemsOf(order[1..], values)
  }

  function Items(d: Record): Pairs {
    ItemsOf(d.order, d.values)
  }

  /** No value of the record spans lines. */
  predicate OneLineValues(d: Record) {
    forall k :: k in d.values ==> '\n' !in d.values[k]
  }

  /** The narinfo document of a record. */
  function Render(d: Record): string {
    RenderPairs(Items(d))
  }

  // ---------------------------------------------------------------------
  // The `Key: Value` line format
  // ---------------------------------------------------------------------

  type Pairs = seq<(string, string)>

  /** `"{}: {}".format(k, v)`. */
  function Line(e: (string, string)): string {
    e.0 + ": " + e.1
  }

  function Lines(d: Pairs): (ls: seq<string>)
    ensures |ls| == |d|
    ensures forall i :: 0 <= i < |d| ==> ls[i] == Line(d[i])
  {
    if d == [] then [] else [Line(d[0])] + Lines(d[1..])
  }

  /** `"\n".join("{}: {}".format(k, v) for k, v in items) + "\n"`. */
  function RenderPairs(d: Pairs): string {
    JoinWith(Lines(d), "\n") + "\n"
  }

  /** An entry that can be written on one line and read back: the key has
      no colon, and neither part has a newline. */
  predicate OneLine(e: (string, string)) {
    ':' !in e.0 && '\n' !in e.0 && '\n' !in e.1
  }

  /** Reads one `Key: Value` line: the key runs to the first colon, which
      must be followed by a space. */
  function ParseLine(l: string): Option<(string, string)> {
    match IndexOf(l, ':')
    case None => None
    case Some(i) =>
      if i + 1 < |l| && l[i + 1] == ' ' then Some((l[..i], l[i + 2..])) else None
  }

  function ParseLines(ls: seq<string>): Option<Pairs> {
    if ls == [] then Some([])
    else match (ParseLine(ls[0]), ParseLines(ls[1..]))
      case (Some(e), Some(rest)) => Some([e] + rest)
      case _ => None
  }

  /** Reads a document of newline-terminated `Key: Value` lines back into
      its entries, in order. */
  function Parse(doc: string): Option<Pairs> {
    if doc == [] || doc[|doc| - 1] != '\n' then None
    else ParseLines(SplitOn(doc[..|doc| - 1], '\n'))
  }

  // =====================================================================
  // Lemmas
  // =====================================================================

  lemma LineRoundTrip(e: (string, string))
    requires OneLine(e)
    ensures ParseLine(Line(e)) == Some(e)
  {
    var l := Line(e);
    assert l == e.0 + [':'] + (" " + e.1);
    IndexOfAfter(e.0, ':', " " + e.1);
    assert l[..|e.0|] == e.0;
    assert l[|e.0| + 2..] == e.1;
  }

  lemma {:induction false} LinesRoundTrip(d: Pairs)
    requires forall i :: 0 <= i < |d| ==> OneLine(d[i])
    ensures ParseLines(Lines(d)) == Some(d)
  {
    if d != [] {
      LineRoundTrip(d[0]);
      LinesRoundTrip(d[1..]);
      assert Lines(d)[1..] == Lines(d[1..]);
      assert [d[0]] + d[1..] == d;
    }
  }

  /** Rendering loses nothing: reading a rendered record gives back every
      entry, in insertion order. */
  lemma RenderRoundTrip(d: Pairs)
    requires d != []
    requires forall i :: 0 <= i < |d| ==> OneLine(d[i])
    ensures Parse(RenderPairs(d)) == Some(d)
  {
    var ls := Lines(d);
    var doc := RenderPairs(d);
    assert doc[..|doc| - 1] == JoinWith(ls, "\n");
    forall i | 0 <= i < |ls| ensures '\n' !in ls[i] {
      assert ls[i] == d[i].0 + ": " + d[i].1;
    }
    SplitOnJoined(ls, '\n');
    LinesRoundTrip(d);
  }

  /** Every listed key of a well-formed dict holds a value, and it is
      what the items show at that position. */
  lemma ItemAt(d: Record, i: nat)
    requires WellFormed(d) && i < |Keys(d)|
    ensures Get(d, Keys(d)[i]).Some?
    ensures Items(d)[i] == (FieldName(Keys(d)[i]), Get(d, Keys(d)[i]).value)
  {
    ItemsValue(d.order, d.values, i);
  }

  /** Assigning a one-line value keeps every value on one line. */
  lemma PutOneLine(d: Record, k: Field, v: string)
    requires OneLineValues(d) && '\n' !in v
    ensures OneLineValues(Put(d, k, v))
  {
  }

  /** Assigning a key the value it already has changes nothing. */
  lemma PutSame(d: Record, k: Field, v: string)
    requires Get(d, k) == Some(v)
    ensures Put(d, k, v) == d
  {
    assert d.values[k := v] == d.values;
  }

  /** The narinfo document of a record reads back as the record's items,
      in insertion order, when no value spans lines. */
  lemma RecordRoundTrip(d: Record)
    requires |Keys(d)| > 0
    requires OneLineValues(d)
    ensures Parse(Render(d)) == Some(Items(d))
  {
    var ps := Items(d);
    forall i | 0 <= i < |ps| ensures OneLine(ps[i]) {
      ItemsValue(d.order, d.values, i);
    }
    RenderRoundTrip(ps);
  }

  lemma {:induction false} ItemsValue(order: seq<Field>, values: map<Field, string>, i: nat)
    requires i < |order|
    ensures ItemsOf(order, values)[i]
         == (FieldName(order[i]), if order[i] in values then values[order[i]] else "")
  {
    if i > 0 {
      ItemsValue(order[1..], values, i - 1);
    }
  }
}
