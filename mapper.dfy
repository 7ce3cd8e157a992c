/**
 * getMappedData (src/exporter.ts): turns the per-hymn arrays of either export
 * into HymnData records, one per key, choosing a decoder hymn by hymn.
 */
module Mapper {
  import opened Wrappers
  import opened Types
  import opened Text
  import opened JsRuntime

  /**
   * `new Date(x * 1000).toLocaleString()` depends on the host's locale and
   * time zone, so the model takes it as a parameter: `fromDoubleText` renders
   * the `$numberDouble` text (after parseFloat), `fromEpochSeconds` a plain
   * number of seconds.
   */
  datatype DateLocale = DateLocale(fromDoubleText: string -> string, fromEpochSeconds: int -> string)

  /** What toLocaleString gives for a date built from NaN. */
  const INVALID_DATE: string := "Invalid Date"

  /** What toString gives for a plain object. */
  const OBJECT_TEXT: string := "[object Object]"

  /** `x || ""` on an optional string. */
  function OrEmpty(o: Option<string>): string
  {
    if o.Some? then o.value else ""
  }

  /** `typeof item === "object"` for every element (true of the empty array). */
  predicate AllObjects(hymn: seq<Datum>)
  {
    forall k :: 0 <= k < |hymn| ==> hymn[k].Obj?
  }

  // ---------------------------------------------------------------------------
  // The extended-JSON decoder

  /** queries / launches: the `$numberInt` text, kept only when parseInt reads it as positive. */
  function WrappedCount(d: Datum): (r: string)
    requires d.Obj?
    ensures r == "" || (d.numberInt == Some(r) && ParsesPositive(r))
    ensures ParsesPositive(OrEmpty(d.numberInt)) ==> r == OrEmpty(d.numberInt)
  {
    var s := OrEmpty(d.numberInt);
    if ParsesPositive(s) then s else ""
  }

  /** lastAccessed: a date when `$numberDouble` is a non-empty string, else empty. */
  function WrappedTimestamp(locale: DateLocale, d: Datum): (r: string)
    requires d.Obj?
  {
    if d.numberDouble.Some? && d.numberDouble.value != "" then
      RemoveFirstComma(locale.fromDoubleText(d.numberDouble.value))
    else ""
  }

  // ---------------------------------------------------------------------------
  // The plain-number decoder

  /** queries / launches: `x.toString()`, with no suppression of zero or negatives. */
  function PlainText(d: Datum): string
  {
    match d
    case Num(n) => IntToDecimal(n)
    case Obj(_, _) => OBJECT_TEXT
  }

  /** lastAccessed: a date when the element is truthy (non-zero), else empty. */
  function PlainTimestamp(locale: DateLocale, d: Datum): string
  {
    match d
    case Num(n) => if n == 0 then "" else RemoveFirstComma(locale.fromEpochSeconds(n))
    case Obj(_, _) => RemoveFirstComma(INVALID_DATE)
  }

  // ---------------------------------------------------------------------------
  // One hymn, then the whole object

  /**
   * The arrays on which the mapping callback does not throw: the wrapper
   * decoder reads `hymn[0]`, `hymn[1]` and `hymn[2]` as objects, the plain
   * decoder calls toString on `hymn[0]` and `hymn[1]` (a missing `hymn[2]` is
   * falsy and gives an empty date).
   */
  predicate Decodable(hymn: seq<Datum>)
  {
    if AllObjects(hymn) then |hymn| >= 3 else |hymn| >= 2
  }

  /** The callback of `Object.keys(hymnalData).map(...)`; None stands for the TypeError. */
  function MapHymn(locale: DateLocale, id: string, hymn: seq<Datum>): (r: Option<HymnData>)
    ensures r.Some? <==> Decodable(hymn)
    ensures r.Some? ==> r.value.id == id
  {
    if AllObjects(hymn) then
      if |hymn| < 3 then None
      else Some(HymnData(id, WrappedCount(hymn[0]), WrappedCount(hymn[1]), WrappedTimestamp(locale, hymn[2])))
    else if |hymn| < 2 then None
    else
      Some(HymnData(id, PlainText(hymn[0]), PlainText(hymn[1]),
                    if |hymn| == 2 then "" else PlainTimestamp(locale, hymn[2])))
  }

  /**
   * getMappedData: one record per entry, in entry order, each decoded from its
   * own array alone; None when some array makes the callback throw.
   */
  function GetMappedData(locale: DateLocale, entries: seq<Entry>): (r: Option<seq<HymnData>>)
    ensures r.Some? <==> forall i :: 0 <= i < |entries| ==> Decodable(entries[i].1)
    ensures r.Some? ==> |r.value| == |entries|
    ensures r.Some? ==> forall i :: 0 <= i < |entries| ==>
      r.value[i].id == entries[i].0 && Some(r.value[i]) == MapHymn(locale, entries[i].0, entries[i].1)
  {
    if entries == [] then Some([])
    else
      var first := MapHymn(locale, entries[0].0, entries[0].1);
      var rest := GetMappedData(locale, entries[1..]);
      if first.None? || rest.None? then None
      else Some([first.value] + rest.value)
  }

  // ---------------------------------------------------------------------------
  // Properties of the counts

  /** A `$numberInt` holding a positive decimal is kept as it is. */
  lemma WrappedCountKeepsPositive(n: int, numberDouble: Option<string>)
    requires n > 0
    ensures WrappedCount(Obj(Some(IntToDecimal(n)), numberDouble)) == IntToDecimal(n)
  {
    DecimalParsesPositive(n);
  }

  /** A `$numberInt` holding zero or a negative decimal becomes empty. */
  lemma WrappedCountDropsNonPositive(n: int, numberDouble: Option<string>)
    requires n <= 0
    ensures WrappedCount(Obj(Some(IntToDecimal(n)), numberDouble)) == ""
  {
    DecimalParsesPositive(n);
  }

  /** An absent, empty or non-numeric `$numberInt` becomes empty. */
  lemma WrappedCountDropsNonNumeric(numberInt: Option<string>, numberDouble: Option<string>)
    requires numberInt.None? || ParseInt(numberInt.value).None?
    ensures WrappedCount(Obj(numberInt, numberDouble)) == ""
  {
  }

  /**
   * The kept text is the original, not a re-rendering: leading white space,
   * any run of leading zeros and text after the digits (all of which parseInt
   * skips) stay in the record.
   */
  lemma WrappedCountVerbatim(ws: string, zeros: string, n: int, rest: string, numberDouble: Option<string>)
    requires forall k :: 0 <= k < |ws| ==> IsJsSpace(ws[k])
    requires forall k :: 0 <= k < |zeros| ==> zeros[k] == '0'
    requires n > 0
    requires rest == [] || !IsDigit(rest[0])
    ensures var s := ws + zeros + IntToDecimal(n) + rest;
      WrappedCount(Obj(Some(s), numberDouble)) == s
  {
    var t := zeros + NatToDecimal(n) + rest;
    assert ws + zeros + IntToDecimal(n) + rest == ws + t;
    ParseIntAfterSpaces(ws, t);
    ParseIntPadded(zeros, n, rest);
  }

  /** parseInt reads a positive decimal after leading zeros and before a non-digit as that number. */
  lemma ParseIntPadded(zeros: string, n: int, rest: string)
    requires forall k :: 0 <= k < |zeros| ==> zeros[k] == '0'
    requires n > 0
    requires rest == [] || !IsDigit(rest[0])
    ensures ParseInt(zeros + NatToDecimal(n) + rest) == Some(n)
  {
    var decimal := NatToDecimal(n);
    var digits := zeros + decimal;
    var t := digits + rest;
    assert t == zeros + NatToDecimal(n) + rest;
    assert forall k :: 0 <= k < |digits| ==> IsDigit(digits[k]);
    DigitRunPrefix(digits, rest);
    assert t[0] == '0' && |t| >= 2 ==> IsDigit(t[1]) by {
      if t[0] == '0' {
        assert zeros != [] by {
          assert |decimal| == 1 ==> DigitValue(decimal[0]) == n;
        }
        assert t[1] == digits[1];
      }
    }
    ParseIntUnsigned(t);
    RadixValueLeadingZeros(zeros, decimal);
    NatToDecimalValue(n);
  }

  /** Leading zeros do not change a decimal value. */
  lemma {:induction false} RadixValueLeadingZeros(zeros: string, d: string)
    requires forall k :: 0 <= k < |zeros| ==> zeros[k] == '0'
    requires forall k :: 0 <= k < |d| ==> IsDigit(d[k])
    ensures forall k :: 0 <= k < |zeros + d| ==> IsDigit((zeros + d)[k])
    ensures RadixValue(zeros + d, false) == RadixValue(d, false)
  {
    if zeros == [] {
      assert zeros + d == d;
    } else {
      var tail := zeros[1..] + d;
      assert zeros + d == "0" + tail;
      RadixValueLeadingZeros(zeros[1..], d);
      RadixValueLeadingZero(tail);
    }
  }

  /** The longest digit prefix of a digit run followed by a non-digit is that run. */
  lemma {:induction false} DigitRunPrefix(digits: string, rest: string)
    requires forall k :: 0 <= k < |digits| ==> IsDigit(digits[k])
    requires rest == [] || !IsDigit(rest[0])
    ensures RadixPrefix(digits + rest, false) == digits
  {
    if digits != [] {
      assert (digits + rest)[1..] == digits[1..] + rest;
      DigitRunPrefix(digits[1..], rest);
    }
  }

  /** A leading zero does not change a decimal value. */
  lemma {:induction false} RadixValueLeadingZero(d: string)
    requires forall k :: 0 <= k < |d| ==> IsDigit(d[k])
    ensures RadixValue("0" + d, false) == RadixValue(d, false)
  {
    if d != [] {
      assert ("0" + d)[..|"0" + d| - 1] == "0" + d[..|d| - 1];
      RadixValueLeadingZero(d[..|d| - 1]);
    }
  }

  /** The plain decoder renders every number, zero and negatives included, so that parseInt reads it back. */
  lemma PlainCountRoundTrip(n: int)
    ensures PlainText(Num(n)) != ""
    ensures ParseInt(PlainText(Num(n))) == Some(n)
  {
    ParseIntOfDecimal(n);
  }

  /** The two decoders disagree on every count that is not positive. */
  lemma CountSuppressionDiffers(n: int, numberDouble: Option<string>)
    ensures (WrappedCount(Obj(Some(IntToDecimal(n)), numberDouble)) == PlainText(Num(n))) <==> n > 0
  {
    DecimalParsesPositive(n);
  }

  // ---------------------------------------------------------------------------
  // Properties of the timestamp

  /**
   * With a formatter that yields real date text (never shorter than two
   * characters), the wrapper lastAccessed is empty exactly when `$numberDouble`
   * is absent or empty; "0" is a non-empty string and gives a date.
   */
  lemma WrappedTimestampEmptyIff(locale: DateLocale, d: Datum)
    requires d.Obj?
    requires d.numberDouble.Some? ==> |locale.fromDoubleText(d.numberDouble.value)| >= 2
    ensures WrappedTimestamp(locale, d) == "" <==> d.numberDouble.None? || d.numberDouble.value == ""
  {
  }

  /** With the same formatter condition, the plain lastAccessed is empty exactly when the number is 0. */
  lemma PlainTimestampEmptyIff(locale: DateLocale, n: int)
    requires |locale.fromEpochSeconds(n)| >= 2
    ensures PlainTimestamp(locale, Num(n)) == "" <==> n == 0
  {
  }

  /** A formatted date with at most one comma reaches the record with none. */
  lemma TimestampCommaFree(locale: DateLocale, d: Datum)
    requires d.Obj? && d.numberDouble.Some?
    requires multiset(locale.fromDoubleText(d.numberDouble.value))[','] <= 1
    ensures ',' !in WrappedTimestamp(locale, d)
  {
    RemoveFirstCommaSingle(locale.fromDoubleText(d.numberDouble.value));
  }

  // ---------------------------------------------------------------------------
  // Properties of one hymn

  /** An all-number array: counts are the decimal renderings, read back exactly by parseInt. */
  lemma PlainHymn(locale: DateLocale, id: string, queries: int, launches: int, seconds: int)
    ensures var r := MapHymn(locale, id, [Num(queries), Num(launches), Num(seconds)]);
      && r.Some?
      && ParseInt(r.value.queries) == Some(queries)
      && ParseInt(r.value.launches) == Some(launches)
      && (seconds == 0 ==> r.value.lastAccessed == "")
  {
    var hymn := [Num(queries), Num(launches), Num(seconds)];
    assert !hymn[0].Obj?;
    ParseIntOfDecimal(queries);
    ParseIntOfDecimal(launches);
  }

  /** The plain array [0, 0, 0] gives "0", "0" and an empty date. */
  lemma PlainZeros(locale: DateLocale, id: string)
    ensures MapHymn(locale, id, [Num(0), Num(0), Num(0)]) == Some(HymnData(id, "0", "0", ""))
  {
    var hymn := [Num(0), Num(0), Num(0)];
    assert !hymn[0].Obj?;
  }

  /**
   * An all-object array: each count is empty or the original `$numberInt`
   * text, and non-empty only when parseInt reads it as positive.
   */
  lemma WrapperHymn(locale: DateLocale, id: string, hymn: seq<Datum>)
    requires AllObjects(hymn) && |hymn| >= 3
    ensures var r := MapHymn(locale, id, hymn);
      && r.Some?
      && (r.value.queries == "" || (hymn[0].numberInt == Some(r.value.queries) && ParsesPositive(r.value.queries)))
      && (r.value.launches == "" || (hymn[1].numberInt == Some(r.value.launches) && ParsesPositive(r.value.launches)))
      && (hymn[2].numberDouble.None? ==> r.value.lastAccessed == "")
  {
  }

  /**
   * A single number anywhere sends the whole array to the plain decoder, so
   * wrapper objects among the counts render as "[object Object]".
   */
  lemma MixedHymn(locale: DateLocale, id: string, hymn: seq<Datum>, k: nat)
    requires |hymn| >= 3 && k < |hymn| && hymn[k].Num?
    requires hymn[0].Obj?
    ensures var r := MapHymn(locale, id, hymn);
      r.Some? && r.value.queries == OBJECT_TEXT
  {
  }

  /** Distinct keys give distinct ids. */
  lemma MappedIdsDistinct(locale: DateLocale, entries: seq<Entry>)
    requires forall i, j :: 0 <= i < j < |entries| ==> entries[i].0 != entries[j].0
    requires GetMappedData(locale, entries).Some?
    ensures var rs := GetMappedData(locale, entries).value;
      forall i, j :: 0 <= i < j < |rs| ==> rs[i].id != rs[j].id
  {
  }
}
