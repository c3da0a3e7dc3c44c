/**
  Memory and CPU usage from `/proc`: parsing the kernel's text and the
  wrap-around arithmetic on its 64-bit counters. Percentages are real numbers.
 */
module SysInfo {
  import opened Prelude
  import opened Decimal

  // ---- Text ----

  /** `unicode.IsSpace`. */
  predicate IsSpace(c: char) {
    || '\t' <= c <= '\r' || c == ' ' || c == '\U{85}' || c == '\U{A0}' || c == '\U{1680}'
    || '\U{2000}' <= c <= '\U{200A}' || c == '\U{2028}' || c == '\U{2029}' || c == '\U{202F}'
    || c == '\U{205F}' || c == '\U{3000}'
  }

  /** The white space of Unicode, character by character. */
  lemma SpacesAreWhiteSpace(c: char)
    ensures IsSpace(c) <==>
            c in "\t\n\U{B}\U{C}\r \U{85}\U{A0}\U{1680}\U{2000}\U{2001}\U{2002}\U{2003}\U{2004}\U{2005}\U{2006}\U{2007}\U{2008}\U{2009}\U{200A}\U{2028}\U{2029}\U{202F}\U{205F}\U{3000}"
  {
    var code := c as int;
    assert '\t' as int == 9 && '\r' as int == 13;
  }

  predicate AllSpaces(s: string) {
    forall i :: 0 <= i < |s| ==> IsSpace(s[i])
  }

  predicate NoSpaces(s: string) {
    forall i :: 0 <= i < |s| ==> !IsSpace(s[i])
  }

  function TrimLeft(s: string): string {
    if s != "" && IsSpace(s[0]) then TrimLeft(s[1..]) else s
  }

  function TrimRight(s: string): string {
    if s != "" && IsSpace(s[|s| - 1]) then TrimRight(s[..|s| - 1]) else s
  }

  function TrimSpace(s: string): string {
    TrimRight(TrimLeft(s))
  }

  function TrimSuffix(s: string, suffix: string): string {
    if |s| >= |suffix| && s[|s| - |suffix|..] == suffix then s[..|s| - |suffix|] else s
  }

  /** The first place of `c` in `s`, or the length of `s`. */
  function IndexByte(s: string, c: char): (i: nat)
    ensures i <= |s| && (i < |s| ==> s[i] == c)
    ensures forall j :: 0 <= j < i ==> s[j] != c
  {
    if s == "" || s[0] == c then 0 else 1 + IndexByte(s[1..], c)
  }

  lemma {:induction false} TrimLeftOfPadded(pad: string, s: string)
    requires AllSpaces(pad) && s != "" && !IsSpace(s[0])
    ensures TrimLeft(pad + s) == s
  {
    if pad == "" {
      assert pad + s == s;
    } else {
      assert (pad + s)[1..] == pad[1..] + s;
      TrimLeftOfPadded(pad[1..], s);
    }
  }

  lemma {:induction false} TrimRightOfPadded(s: string, pad: string)
    requires AllSpaces(pad) && s != "" && !IsSpace(s[|s| - 1])
    ensures TrimRight(s + pad) == s
  {
    if pad == "" {
      assert s + pad == s;
    } else {
      var t := s + pad;
      assert t[..|t| - 1] == s + pad[..|pad| - 1];
      TrimRightOfPadded(s, pad[..|pad| - 1]);
    }
  }

  // ---- /proc/meminfo ----

  /** `parseMemInfoLine`: the key and its value in kB. */
  function ParseMemInfoLine(line: string): Option<(string, UInt64)> {
    var colon := IndexByte(line, ':');
    if colon == |line| then None
    else
      var rest := TrimSuffix(TrimSpace(line[colon + 1..]), " kB");
      match ParseUint(rest)
      case Some(n) => Some((line[..colon], n))
      case None => None
  }

  lemma IndexOfSeparator(key: string, rest: string)
    requires ':' !in key
    ensures IndexByte(key + ":" + rest, ':') == |key|
  {
    var line := key + ":" + rest;
    assert line[|key|] == ':';
    assert forall j :: 0 <= j < |key| ==> line[j] == key[j];
  }

  lemma MemInfoValue(number: string, unit: string)
    requires number != "" && AllDigits(number) && (unit == "" || unit == " kB")
    ensures TrimSuffix(number + unit, " kB") == number
  {
    if unit == "" {
      assert number + unit == number;
      assert IsDigit(number[|number| - 1]);
      if |number| >= 3 {
        assert number[|number| - 3..][2] == number[|number| - 1];
      }
    }
  }

  lemma {:induction false} TrimLeftSplits(s: string) returns (pad: string)
    ensures AllSpaces(pad) && s == pad + TrimLeft(s)
    ensures TrimLeft(s) != "" ==> !IsSpace(TrimLeft(s)[0])
  {
    if s == "" || !IsSpace(s[0]) {
      pad := "";
    } else {
      var rest := TrimLeftSplits(s[1..]);
      pad := [s[0]] + rest;
    }
  }

  lemma {:induction false} TrimRightSplits(s: string) returns (blanks: string)
    ensures AllSpaces(blanks) && s == TrimRight(s) + blanks
  {
    if s == "" || !IsSpace(s[|s| - 1]) {
      blanks := "";
    } else {
      var rest := TrimRightSplits(s[..|s| - 1]);
      blanks := rest + [s[|s| - 1]];
      assert s == s[..|s| - 1] + [s[|s| - 1]];
    }
  }

  /** The parts of a line that gives `key` the value `n`. */
  predicate MemInfoParts(line: string, key: string, n: nat, pad: string, number: string, unit: string, blanks: string) {
    && line == key + ":" + (pad + (number + unit + blanks))
    && ':' !in key && AllSpaces(pad) && AllSpaces(blanks) && (unit == "" || unit == " kB")
    && number != "" && AllDigits(number) && Value(number) == n
  }

  lemma MemInfoPartsParse(line: string, key: string, n: nat, pad: string, number: string, unit: string, blanks: string)
    requires MemInfoParts(line, key, n, pad, number, unit, blanks)
    ensures ParseMemInfoLine(line) == if n < TWO_TO_THE_64 then Some((key, n)) else None
  {
    var body := number + unit;
    var rest := pad + (body + blanks);
    IndexOfSeparator(key, rest);
    assert line[..|key|] == key && line[|key| + 1..] == rest;
    assert IsDigit(body[0]);
    TrimLeftOfPadded(pad, body + blanks);
    assert body[|body| - 1] == 'B' || IsDigit(body[|body| - 1]);
    TrimRightOfPadded(body, blanks);
    MemInfoValue(number, unit);
  }

  lemma MemInfoPartsOf(line: string, key: string, n: UInt64)
    returns (pad: string, number: string, unit: string, blanks: string)
    requires ParseMemInfoLine(line) == Some((key, n))
    ensures MemInfoParts(line, key, n, pad, number, unit, blanks)
  {
    hide TrimLeft, TrimRight, ParseUint;
    var colon := IndexByte(line, ':');
    var rest := line[colon + 1..];
    pad := TrimLeftSplits(rest);
    blanks := TrimRightSplits(TrimLeft(rest));
    number := TrimSuffix(TrimSpace(rest), " kB");
    unit := TrimSpace(rest)[|number|..];
    ValueOfLine(line, colon, pad, number, unit, blanks);
    NumberParsed(number, n);
  }

  lemma ValueOfLine(line: string, colon: nat, pad: string, number: string, unit: string, blanks: string)
    requires colon < |line| && line[colon] == ':'
    requires line[colon + 1..] == pad + ((number + unit) + blanks)
    ensures line == line[..colon] + ":" + (pad + (number + unit + blanks))
  {
  }

  lemma NumberParsed(s: string, n: UInt64)
    requires ParseUint(s) == Some(n)
    ensures s != "" && AllDigits(s) && Value(s) == n
  {
  }

  /**
    A line gives a key a value exactly when it is that key, free of colons, a
    colon, blanks, digits that denote a 64-bit number, an optional unit and
    blanks. Every other line gives none.
   */
  lemma MemInfoLineIff(line: string, key: string, n: UInt64)
    ensures ParseMemInfoLine(line) == Some((key, n)) <==>
            exists pad, number, unit, blanks :: MemInfoParts(line, key, n, pad, number, unit, blanks)
  {
    hide ParseMemInfoLine, MemInfoParts;
    if ParseMemInfoLine(line) == Some((key, n)) {
      var pad, number, unit, blanks := MemInfoPartsOf(line, key, n);
    }
    if pad, number, unit, blanks :| MemInfoParts(line, key, n, pad, number, unit, blanks) {
      MemInfoPartsParse(line, key, n, pad, number, unit, blanks);
    }
  }

  /**
    A line of a colon-free key, padding, a printed number, an optional unit and
    trailing blanks reads back as that key and number, or not at all when the
    number does not fit 64 bits.
   */
  lemma MemInfoLineReadsBack(key: string, pad: string, n: nat, unit: string, blanks: string)
    requires ':' !in key && AllSpaces(pad) && AllSpaces(blanks) && (unit == "" || unit == " kB")
    ensures ParseMemInfoLine(key + ":" + (pad + (FormatNat(n) + unit + blanks)))
         == if n < TWO_TO_THE_64 then Some((key, n)) else None
  {
    hide ParseMemInfoLine;
    ValueOfFormat(n);
    MemInfoPartsParse(key + ":" + (pad + (FormatNat(n) + unit + blanks)), key, n, pad, FormatNat(n), unit, blanks);
  }

  /** The value the lines give `key` last, if any does. */
  function LastValue(lines: seq<string>, key: string): Option<UInt64> {
    if lines == [] then None
    else
      match ParseMemInfoLine(lines[|lines| - 1])
      case Some((k, n)) => if k == key then Some(n) else LastValue(lines[..|lines| - 1], key)
      case None => LastValue(lines[..|lines| - 1], key)
  }

  predicate Gives(line: string, key: string) {
    ParseMemInfoLine(line).Some? && ParseMemInfoLine(line).value.0 == key
  }

  /** The last value comes from a line after which no line mentions the key; without such a line there is none. */
  lemma {:induction false} LastValueIsLast(lines: seq<string>, key: string)
    ensures LastValue(lines, key) == None <==> forall i :: 0 <= i < |lines| ==> !Gives(lines[i], key)
    ensures forall n :: LastValue(lines, key) == Some(n) ==>
              exists i :: 0 <= i < |lines| && ParseMemInfoLine(lines[i]) == Some((key, n))
                && forall j :: i < j < |lines| ==> !Gives(lines[j], key)
  {
    hide ParseMemInfoLine;
    if lines == [] {
    } else {
      var last := |lines| - 1;
      LastValueIsLast(lines[..last], key);
      if !Gives(lines[last], key) && LastValue(lines, key).Some? {
        var n := LastValue(lines, key).value;
        var i :| 0 <= i < last && ParseMemInfoLine(lines[..last][i]) == Some((key, n))
                 && forall j :: i < j < last ==> !Gives(lines[..last][j], key);
        assert ParseMemInfoLine(lines[i]) == Some((key, n));
        forall j | i < j < |lines|
          ensures !Gives(lines[j], key)
        {
          assert j < last ==> !Gives(lines[..last][j], key);
        }
      }
    }
  }

  /** `parseKeyValueKB` on the lines of the file: each wanted key that occurs, with its last value. */
  method ParseKeyValueKB(lines: seq<string>, want: set<string>) returns (result: map<string, UInt64>)
    ensures forall key :: key in result <==> key in want && LastValue(lines, key).Some?
    ensures forall key :: key in result ==> result[key] == LastValue(lines, key).value
  {
    hide ParseMemInfoLine;
    result := map[];
    var i := 0;
    while i < |lines|
      invariant i <= |lines|
      invariant forall key :: key in result <==> key in want && LastValue(lines[..i], key).Some?
      invariant forall key :: key in result ==> result[key] == LastValue(lines[..i], key).value
    {
      assert lines[..i + 1][..i] == lines[..i];
      var parsed := ParseMemInfoLine(lines[i]);
      if parsed.Some? && parsed.value.0 in want {
        result := result[parsed.value.0 := parsed.value.1];
      }
      i := i + 1;
    }
    assert lines[..i] == lines;
  }

  function Wrap(n: int): UInt64 {
    n % TWO_TO_THE_64
  }

  lemma WrapExactIff(x: nat)
    ensures Wrap(x) == x <==> x < TWO_TO_THE_64
  {
  }

  /** `math.Round`: to the nearest integer, halves away from zero. */
  function Round(x: real): int {
    if x >= 0.0 then (x + 0.5).Floor else -((-x + 0.5).Floor)
  }

  function OneDecimal(percent: real): real {
    Round(percent * 10.0) as real / 10.0
  }

  /** Memory usage; the percentage is absent where Go would divide by zero. */
  datatype MemStats = MemStats(totalBytes: UInt64, usedBytes: UInt64, usagePercent: Option<real>)

  function FieldOrZero(fields: map<string, UInt64>, key: string): UInt64 {
    if key in fields then fields[key] else 0
  }

  /** Available memory in kB: reported, or estimated by older kernels' fields. */
  function Available(fields: map<string, UInt64>): UInt64 {
    if "MemAvailable" in fields then fields["MemAvailable"]
    else Wrap(FieldOrZero(fields, "MemFree") + FieldOrZero(fields, "Buffers") + FieldOrZero(fields, "Cached"))
  }

  /** The arithmetic of `readMemInfo`. */
  function ReadMemInfo(fields: map<string, UInt64>): Option<MemStats> {
    if FieldOrZero(fields, "MemTotal") == 0 then None
    else
      var total := fields["MemTotal"];
      var available := Available(fields);
      var totalBytes := Wrap(total * 1024);
      var usedBytes := if total > available then Wrap((total - available) * 1024) else 0;
      Some(MemStats(
        totalBytes,
        usedBytes,
        if totalBytes == 0 then None
        else Some(OneDecimal(usedBytes as real / totalBytes as real * 100.0))))
  }

  const MAX_EXACT_KB := 0x40_0000_0000_0000

  /** Reported percentages are within a twentieth of a point of the exact ones. */
  lemma OneDecimalIsClose(percent: real)
    ensures -0.05 <= OneDecimal(percent) - percent <= 0.05
  {
  }

  /** Rounding goes to the nearest integer, halves away from zero, alike on both sides of zero. */
  lemma RoundIff(x: real, k: int)
    requires x >= 0.0
    ensures Round(x) == k <==> k as real - 0.5 <= x < k as real + 0.5
    ensures Round(-x) == -Round(x)
  {
  }

  /** A reported percentage is a whole number of tenths: the nearest to the exact one. */
  lemma OneDecimalIff(percent: real, tenths: nat)
    requires percent >= 0.0
    ensures OneDecimal(percent) == tenths as real / 10.0 <==>
            tenths as real - 0.5 <= percent * 10.0 < tenths as real + 0.5
    ensures OneDecimal(percent) == Round(percent * 10.0) as real / 10.0 && Round(percent * 10.0) >= 0
  {
    hide Round;
    var t := Round(percent * 10.0);
    RoundIff(percent * 10.0, t);
    assert t >= 0;
    assert OneDecimal(percent) == t as real / 10.0;
    assert t as real / 10.0 == tenths as real / 10.0 <==> t == tenths;
  }

  lemma OneDecimalAtMostHundredIff(percent: real)
    requires percent >= 0.0
    ensures 0.0 <= OneDecimal(percent)
    ensures OneDecimal(percent) <= 100.0 <==> percent < 100.05
  {
  }

  lemma ScalingKeepsOrder(a: real, b: real, scale: real)
    requires scale > 0.0
    ensures a < b <==> a * scale < b * scale
  {
  }

  /** A rounded share lies between 0 and 100 exactly when it is below 100.05 before rounding, stated on integers. */
  lemma RoundedShareInRangeIff(part: nat, whole: nat)
    requires whole > 0
    ensures var percent := OneDecimal(part as real / whole as real * 100.0);
            0.0 <= percent && (percent <= 100.0 <==> 2000 * part < 2001 * whole)
  {
    hide OneDecimal;
    var share := part as real / whole as real;
    assert share * whole as real == part as real;
    OneDecimalAtMostHundredIff(share * 100.0);
    ScalingKeepsOrder(share, 1.0005, whole as real);
  }

  /** `x` lies from `low` up to `high` times `unit`. */
  predicate Within(low: int, x: int, high: int, unit: int) {
    low * unit <= x < high * unit
  }

  lemma ThousandShares(share: real, part: real, whole: real)
    requires share * whole == part
    ensures share * 100.0 * 10.0 * whole == 1000.0 * part
  {
  }

  /** A share is below `k` half tenths of a percent exactly when this holds of integers. */
  lemma ShareBelowIff(part: nat, whole: nat, k: int)
    requires whole > 0
    ensures part as real / whole as real * 100.0 * 10.0 < k as real / 2.0 <==> 2000 * part < k * whole
  {
    var share, w := part as real / whole as real, whole as real;
    ThousandShares(share, part as real, w);
    ScalingKeepsOrder(share * 100.0 * 10.0, k as real / 2.0, w);
    HalfTimes(k, whole, part);
  }

  lemma HalfTimes(k: int, whole: nat, part: nat)
    ensures 1000.0 * part as real < (k as real / 2.0) * whole as real <==> 2000 * part < k * whole
  {
    assert (k * whole) as real == k as real * whole as real;
    assert (k as real / 2.0) * whole as real == (k * whole) as real / 2.0;
  }

  /** The tenths of a percent reported for a share, stated on integers: the nearest to a thousand times the share. */
  lemma RoundedShareIff(part: nat, whole: nat, tenths: nat)
    requires whole > 0
    ensures OneDecimal(part as real / whole as real * 100.0) == tenths as real / 10.0 <==>
            Within(2 * tenths - 1, 2000 * part, 2 * tenths + 1, whole)
  {
    var percent := part as real / whole as real * 100.0;
    assert percent >= 0.0;
    OneDecimalIff(percent, tenths);
    ShareBelowIff(part, whole, 2 * tenths - 1);
    ShareBelowIff(part, whole, 2 * tenths + 1);
    hide OneDecimal;
    assert (2 * tenths - 1) as real / 2.0 == tenths as real - 0.5;
    assert (2 * tenths + 1) as real / 2.0 == tenths as real + 0.5;
  }

  lemma UsedWithinTotal(fields: map<string, UInt64>)
    requires ReadMemInfo(fields).Some? && fields["MemTotal"] < MAX_EXACT_KB
    ensures var stats, total: int := ReadMemInfo(fields).value, fields["MemTotal"];
            && stats.usedBytes <= stats.totalBytes
            && stats.totalBytes - stats.usedBytes ==
                 1024 * (if total > Available(fields) then Available(fields) else total)
  {
    hide Wrap, OneDecimal, Available;
    var total := fields["MemTotal"];
    WrapExactIff(total * 1024);
    if total > Available(fields) {
      WrapExactIff((total - Available(fields)) * 1024);
    }
  }

  /**
    The byte total is exact exactly below 2^54 kB; there, usage never exceeds
    the total, and the percentage lies between 0 and 100.
   */
  lemma MemInfoIsExactIff(fields: map<string, UInt64>)
    requires ReadMemInfo(fields).Some?
    ensures var stats, total: int := ReadMemInfo(fields).value, fields["MemTotal"];
            && (stats.totalBytes == total * 1024 <==> total < MAX_EXACT_KB)
            && (total < MAX_EXACT_KB ==>
                  && stats.usedBytes <= stats.totalBytes
                  && stats.totalBytes - stats.usedBytes ==
                       1024 * (if total > Available(fields) then Available(fields) else total)
                  && stats.usagePercent.Some?
                  && 0.0 <= stats.usagePercent.value <= 100.0)
  {
    hide Wrap, OneDecimal, Available;
    var total := fields["MemTotal"];
    var stats := ReadMemInfo(fields).value;
    WrapExactIff(total * 1024);
    assert total * 1024 < TWO_TO_THE_64 <==> total < MAX_EXACT_KB;
    if total < MAX_EXACT_KB {
      UsedWithinTotal(fields);
      RoundedShareInRangeIff(stats.usedBytes, stats.totalBytes);
    }
  }

  lemma BytesOfKB(kB: nat)
    ensures Wrap(kB * 1024) == 1024 * (kB % MAX_EXACT_KB)
  {
    var rest := 1024 * (kB % MAX_EXACT_KB);
    assert kB * 1024 == rest + TWO_TO_THE_64 * (kB / MAX_EXACT_KB);
    WrapIgnoresMultiples(rest, kB / MAX_EXACT_KB);
  }

  /** Memory available to programs, in kB: reported, or on older kernels free, buffered and cached memory together. */
  lemma AvailableIs(fields: map<string, UInt64>)
    ensures Available(fields) as int ==
            if "MemAvailable" in fields then fields["MemAvailable"] as int
            else (FieldOrZero(fields, "MemFree") + FieldOrZero(fields, "Buffers") + FieldOrZero(fields, "Cached")) % TWO_TO_THE_64
  {
  }

  /** Both byte counts, for every input. */
  lemma MemBytes(fields: map<string, UInt64>)
    requires ReadMemInfo(fields).Some?
    ensures var stats, total := ReadMemInfo(fields).value, FieldOrZero(fields, "MemTotal") as int;
            var available := Available(fields) as int;
            && stats.totalBytes == 1024 * (total % MAX_EXACT_KB)
            && stats.usedBytes == 1024 * (if total > available then (total - available) % MAX_EXACT_KB else 0)
  {
    hide Wrap, OneDecimal, Available;
    var total := fields["MemTotal"];
    BytesOfKB(total);
    if total > Available(fields) {
      BytesOfKB(total - Available(fields));
    }
  }

  /**
    The reported percentage: absent without bytes in all, otherwise the nearest
    number of tenths; and between 0 and 100 exactly when the bytes in use are
    fewer than the total and a 2000th of it.
   */
  lemma MemUsageInRangeIff(fields: map<string, UInt64>)
    requires ReadMemInfo(fields).Some?
    ensures var stats := ReadMemInfo(fields).value;
            && (stats.usagePercent == None <==> stats.totalBytes == 0)
            && (forall tenths: nat ::
                  stats.usagePercent == Some(tenths as real / 10.0) <==>
                    Within(2 * tenths - 1, 2000 * stats.usedBytes, 2 * tenths + 1, stats.totalBytes))
            && (stats.usagePercent.Some? && 0.0 <= stats.usagePercent.value <= 100.0 <==>
                  2000 * stats.usedBytes < 2001 * stats.totalBytes)
  {
    hide OneDecimal, Within, Available, Wrap;
    var stats := ReadMemInfo(fields).value;
    if stats.totalBytes > 0 {
      RoundedShareInRangeIff(stats.usedBytes, stats.totalBytes);
    }
    forall tenths: nat
      ensures stats.usagePercent == Some(tenths as real / 10.0) <==>
              Within(2 * tenths - 1, 2000 * stats.usedBytes, 2 * tenths + 1, stats.totalBytes)
    {
      if stats.totalBytes > 0 {
        RoundedShareIff(stats.usedBytes, stats.totalBytes, tenths);
      } else {
        NothingWithin(2 * tenths - 1, 2000 * stats.usedBytes, 2 * tenths + 1);
      }
    }
  }

  lemma NothingWithin(low: int, x: int, high: int)
    ensures !Within(low, x, high, 0)
  {
  }

  lemma SmallRemainder(x: nat, m: nat)
    requires x < m
    ensures x % m == x
  {
  }

  /** Memory in use below 2^54 kB: all that is not available, in bytes. */
  lemma UsedMemory(fields: map<string, UInt64>)
    requires ReadMemInfo(fields).Some? && fields["MemTotal"] < MAX_EXACT_KB
    ensures var used, total := ReadMemInfo(fields).value.usedBytes as int, FieldOrZero(fields, "MemTotal");
            var available := FieldOrZero(fields, "MemAvailable");
            var reclaimable :=
              FieldOrZero(fields, "MemFree") + FieldOrZero(fields, "Buffers") + FieldOrZero(fields, "Cached");
            && ("MemAvailable" in fields ==>
                  used == 1024 * (if available <= total then total - available else 0))
            && ("MemAvailable" !in fields && reclaimable < TWO_TO_THE_64 ==>
                  used == 1024 * (if reclaimable <= total then total - reclaimable else 0))
  {
    hide OneDecimal, Available, Wrap, ReadMemInfo;
    AvailableIs(fields);
    var total, available := FieldOrZero(fields, "MemTotal") as int, Available(fields) as int;
    MemBytes(fields);
    if total > available {
      SmallRemainder(total - available, MAX_EXACT_KB);
    }
    var reclaimable :=
      FieldOrZero(fields, "MemFree") as int + FieldOrZero(fields, "Buffers") as int + FieldOrZero(fields, "Cached") as int;
    if reclaimable < TWO_TO_THE_64 {
      SmallRemainder(reclaimable, TWO_TO_THE_64);
    }
  }

  /** At exactly 2^54 kB the byte total wraps to zero and the percentage is undefined. */
  lemma MemInfoWrapsToZero()
    ensures ReadMemInfo(map["MemTotal" := MAX_EXACT_KB]) == Some(MemStats(0, 0, None))
  {
  }

  /** Beyond it the percentage may exceed 100, or look like one although both byte counts have wrapped. */
  lemma MemInfoBeyondLimit()
    ensures var over := ReadMemInfo(map["MemTotal" := MAX_EXACT_KB + 1, "MemAvailable" := 2]);
            over.Some? && over.value.usagePercent.Some? && over.value.usagePercent.value > 100.0
    ensures ReadMemInfo(map["MemTotal" := MAX_EXACT_KB + 1000, "MemAvailable" := MAX_EXACT_KB + 500])
         == Some(MemStats(1024000, 512000, Some(50.0)))
  {
    MemUsageInRangeIff(map["MemTotal" := MAX_EXACT_KB + 1, "MemAvailable" := 2]);
    RoundedShareInRangeIff(1024 * (MAX_EXACT_KB - 1), 1024);
    assert OneDecimal(512000.0 / 1024000.0 * 100.0) == 50.0;
  }

  /** The keys `readMemInfo` looks for. */
  const MEM_KEYS := {"MemTotal", "MemAvailable", "MemFree", "Buffers", "Cached"}

  /** The fields a text gives: of each key looked for, its last value. */
  function FieldsGiven(lines: seq<string>): (fields: map<string, UInt64>) {
    map key | key in MEM_KEYS && LastValue(lines, key).Some? :: LastValue(lines, key).value
  }

  /** The kB a text gives a key last, or zero. */
  function LastKB(lines: seq<string>, key: string): int {
    match LastValue(lines, key)
    case Some(n) => n
    case None => 0
  }

  /**
    `readMemInfo` on the lines of the file: none without a positive total, and
    otherwise, for totals below 2^54 kB, exact counts and a percentage.
   */
  method ReadMemInfoLines(lines: seq<string>) returns (r: Option<MemStats>)
    ensures r == ReadMemInfo(FieldsGiven(lines))
    ensures r == None <==> LastValue(lines, "MemTotal") == None || LastValue(lines, "MemTotal") == Some(0)
    ensures r.Some? && LastValue(lines, "MemTotal").value < MAX_EXACT_KB ==>
              && r.value.totalBytes == 1024 * LastValue(lines, "MemTotal").value
              && r.value.usedBytes <= r.value.totalBytes
              && r.value.usagePercent.Some? && 0.0 <= r.value.usagePercent.value <= 100.0
    ensures r.Some? && LastValue(lines, "MemTotal").value < MAX_EXACT_KB ==>
              var total := LastKB(lines, "MemTotal");
              var reclaimable := LastKB(lines, "MemFree") + LastKB(lines, "Buffers") + LastKB(lines, "Cached");
              match LastValue(lines, "MemAvailable")
              case Some(available) =>
                r.value.usedBytes == 1024 * (if available <= total then total - available else 0)
              case None =>
                reclaimable < TWO_TO_THE_64 ==>
                  r.value.usedBytes == 1024 * (if reclaimable <= total then total - reclaimable else 0)
  {
    hide LastValue, Available, Wrap, OneDecimal;
    var fields := ParseKeyValueKB(lines, MEM_KEYS);
    assert fields == FieldsGiven(lines);
    r := ReadMemInfo(fields);
    assert forall key :: key in MEM_KEYS ==> FieldOrZero(fields, key) == LastKB(lines, key);
    if r.Some? {
      MemInfoIsExactIff(fields);
      if fields["MemTotal"] < MAX_EXACT_KB {
        UsedMemory(fields);
      }
    }
  }

  // ---- /proc/stat ----

  function WordLength(s: string): (n: nat)
    ensures n <= |s| && NoSpaces(s[..n]) && (n < |s| ==> IsSpace(s[n]))
    ensures s != "" && !IsSpace(s[0]) ==> n > 0
  {
    if s == "" || IsSpace(s[0]) then 0 else 1 + WordLength(s[1..])
  }

  /** `strings.Fields`. */
  function Fields(s: string): seq<string>
    decreases |s|
  {
    if s == "" then []
    else if IsSpace(s[0]) then Fields(s[1..])
    else
      var n := WordLength(s);
      [s[..n]] + Fields(s[n..])
  }

  function ParseAll(words: seq<string>): (r: Option<seq<UInt64>>)
    ensures r.Some? ==> |r.value| == |words|
  {
    if words == [] then Some([])
    else
      match (ParseAll(words[..|words| - 1]), ParseUint(words[|words| - 1]))
      case (Some(front), Some(last)) => Some(front + [last])
      case _ => None
  }

  function Sum(values: seq<UInt64>): nat {
    if values == [] then 0 else Sum(values[..|values| - 1]) + values[|values| - 1]
  }

  datatype CpuTicks = CpuTicks(total: UInt64, idle: UInt64)

  datatype CpuError = NoCPULine | UnexpectedFormat | UnparseableField(index: nat)

  /** The counters a line contributes: the first eight after its label. */
  function CounterWords(fields: seq<string>): seq<string>
    requires |fields| >= 5
  {
    fields[1..1 + if |fields| - 1 > 8 then 8 else |fields| - 1]
  }

  /**
    `parseCPULine`: the counters' sum, wrapped to 64 bits, and the fourth
    counter; or the first counter that does not parse.
   */
  method ParseCPULine(line: string) returns (r: Result<CpuTicks, CpuError>)
    ensures |Fields(line)| < 5 <==> r == Err(UnexpectedFormat)
    ensures |Fields(line)| >= 5 ==>
              var words := CounterWords(Fields(line));
              match r
              case Ok(ticks) =>
                && ParseAll(words).Some?
                && ticks == CpuTicks(Wrap(Sum(ParseAll(words).value)), ParseAll(words).value[3])
              case Err(UnparseableField(i)) =>
                && i < |words| && ParseAll(words[..i]).Some? && ParseUint(words[i]) == None
              case _ => false
  {
    hide ParseAll, Sum, Wrap, ParseUint, Fields;
    var fields := Fields(line);
    if |fields| < 5 {
      return Err(UnexpectedFormat);
    }
    var words := CounterWords(fields);
    var total: UInt64, idle: UInt64 := 0, 0;
    NoCounters(words);
    var i := 0;
    while i < |words|
      invariant i <= |words|
      invariant ParseAll(words[..i]).Some?
      invariant total == Wrap(Sum(ParseAll(words[..i]).value))
      invariant i > 3 ==> idle == ParseAll(words[..i]).value[3]
    {
      var v := ParseUint(words[i]);
      if v == None {
        return Err(UnparseableField(i));
      }
      ParseAllStep(words, i);
      total := Wrap(total + v.value);
      if i == 3 {
        idle := v.value;
      }
      i := i + 1;
    }
    assert words[..i] == words;
    return Ok(CpuTicks(total, idle));
  }

  lemma WrapAccumulates(a: int, b: int)
    ensures Wrap(Wrap(a) + b) == Wrap(a + b)
  {
    WrapIgnoresMultiples(Wrap(a) + b, a / TWO_TO_THE_64);
    assert a == TWO_TO_THE_64 * (a / TWO_TO_THE_64) + Wrap(a);
  }

  lemma WrapIgnoresMultiples(a: int, k: int)
    ensures Wrap(a + TWO_TO_THE_64 * k) == Wrap(a)
  {
  }

  lemma WrapDifference(a: int, b: int)
    ensures Wrap(Wrap(a) - Wrap(b)) == Wrap(a - b)
  {
    var k, l := a / TWO_TO_THE_64, b / TWO_TO_THE_64;
    assert a - b == Wrap(a) - Wrap(b) + TWO_TO_THE_64 * (k - l);
    WrapIgnoresMultiples(Wrap(a) - Wrap(b), k - l);
  }

  lemma NoCounters(words: seq<string>)
    ensures ParseAll(words[..0]) == Some([]) && Wrap(Sum([])) == 0
  {
  }

  lemma ParseAllStep(words: seq<string>, i: nat)
    requires i < |words| && ParseAll(words[..i]).Some? && ParseUint(words[i]).Some?
    ensures var front, v := ParseAll(words[..i]).value, ParseUint(words[i]).value;
            && ParseAll(words[..i + 1]) == Some(front + [v])
            && Wrap(Sum(front + [v])) == Wrap(Wrap(Sum(front)) + v)
  {
    var front, v := ParseAll(words[..i]).value, ParseUint(words[i]).value;
    assert words[..i + 1][..i] == words[..i];
    assert (front + [v])[..i] == front;
    WrapAccumulates(Sum(front), v);
  }

  /** Words with blanks between them; only the last gap may be empty. */
  function Spaced(words: seq<string>, gaps: seq<string>): string
    requires |words| == |gaps|
  {
    if words == [] then "" else words[0] + (gaps[0] + Spaced(words[1..], gaps[1..]))
  }

  lemma {:induction false} FieldsSkipBlanks(gap: string, s: string)
    requires AllSpaces(gap)
    ensures Fields(gap + s) == Fields(s)
  {
    if gap == "" {
      assert gap + s == s;
    } else {
      assert (gap + s)[1..] == gap[1..] + s;
      FieldsSkipBlanks(gap[1..], s);
    }
  }

  lemma {:induction false} WordLengthOf(word: string, rest: string)
    requires NoSpaces(word) && (rest == "" || IsSpace(rest[0]))
    ensures WordLength(word + rest) == |word|
  {
    if word == "" {
      assert word + rest == rest;
    } else {
      assert (word + rest)[1..] == word[1..] + rest;
      WordLengthOf(word[1..], rest);
    }
  }

  /** Splitting a spaced line gives its words back. */
  lemma {:induction false} FieldsOfSpaced(words: seq<string>, gaps: seq<string>)
    requires |words| == |gaps|
    requires forall i :: 0 <= i < |words| ==> words[i] != "" && NoSpaces(words[i]) && AllSpaces(gaps[i])
    requires forall i :: 0 <= i < |words| - 1 ==> gaps[i] != ""
    ensures Fields(Spaced(words, gaps)) == words
  {
    if words == [] {
    } else {
      var rest := Spaced(words[1..], gaps[1..]);
      var tail := gaps[0] + rest;
      FieldsOfSpaced(words[1..], gaps[1..]);
      FieldsSkipBlanks(gaps[0], rest);
      assert |words| == 1 ==> rest == "";
      assert tail == "" || IsSpace(tail[0]);
      WordLengthOf(words[0], tail);
      var s := words[0] + tail;
      assert s[..|words[0]|] == words[0] && s[|words[0]|..] == tail;
    }
  }

  function Printed(values: seq<UInt64>): (words: seq<string>)
    ensures |words| == |values|
  {
    seq(|values|, i requires 0 <= i < |values| => FormatNat(values[i]))
  }

  lemma {:induction false} ParseAllOfPrinted(values: seq<UInt64>)
    ensures ParseAll(Printed(values)) == Some(values)
  {
    if values == [] {
    } else {
      var n := |values| - 1;
      ParseAllOfPrinted(values[..n]);
      assert Printed(values)[..n] == Printed(values[..n]);
      ParseUintOfFormat(values[n]);
      assert values == values[..n] + [values[n]];
    }
  }

  lemma PrintedHasNoSpaces(n: nat)
    ensures FormatNat(n) != "" && NoSpaces(FormatNat(n))
  {
    ValueOfFormat(n);
    forall i | 0 <= i < |FormatNat(n)|
      ensures !IsSpace(FormatNat(n)[i])
    {
      assert IsDigit(FormatNat(n)[i]);
    }
  }

  /** The counters that count: `guest` and later ones are part of earlier ones already. */
  function Counted(values: seq<UInt64>): seq<UInt64> {
    if |values| > 8 then values[..8] else values
  }

  /** The counters of a `cpu` line are the first eight numbers printed on it, however it is spaced. */
  lemma CPULineReadsBack(values: seq<UInt64>, gaps: seq<string>)
    requires |values| >= 4 && |gaps| == |values| + 1
    requires forall i :: 0 <= i < |gaps| ==> AllSpaces(gaps[i]) && (i < |gaps| - 1 ==> gaps[i] != "")
    ensures var line := Spaced(["cpu"] + Printed(values), gaps);
            && |Fields(line)| >= 5
            && ParseAll(CounterWords(Fields(line))) == Some(Counted(values))
  {
    var words := ["cpu"] + Printed(values);
    forall i | 0 <= i < |words|
      ensures words[i] != "" && NoSpaces(words[i])
    {
      if i > 0 {
        PrintedHasNoSpaces(values[i - 1]);
      }
    }
    FieldsOfSpaced(words, gaps);
    assert CounterWords(words) == Printed(Counted(values));
    ParseAllOfPrinted(Counted(values));
  }

  // ---- CPU usage between two samples ----

  /** `sampleCPUUsageBetween`'s share of busy ticks, before rounding, when any ticks passed. */
  function BusyPercent(t1: CpuTicks, t2: CpuTicks): Option<real> {
    var totalDelta := Wrap(t2.total - t1.total);
    var idleDelta := Wrap(t2.idle - t1.idle);
    if totalDelta == 0 then None
    else Some(Wrap(totalDelta - idleDelta) as real / totalDelta as real * 100.0)
  }

  function CPUUsage(t1: CpuTicks, t2: CpuTicks): real {
    match BusyPercent(t1, t2)
    case None => 0.0
    case Some(percent) => OneDecimal(percent)
  }

  /**
    The reported usage is a percentage exactly when no ticks passed, when the
    idle delta stays within the total delta, or when the idle counter went back
    by less than a 2000th of the total delta, which rounding hides.
   */
  lemma CPUUsageInRangeIff(t1: CpuTicks, t2: CpuTicks)
    ensures 0.0 <= CPUUsage(t1, t2)
    ensures var totalDelta, idleDelta := Wrap(t2.total - t1.total), Wrap(t2.idle - t1.idle);
            CPUUsage(t1, t2) <= 100.0 <==>
              totalDelta == 0 || idleDelta <= totalDelta || 2000 * (TWO_TO_THE_64 - idleDelta) < totalDelta
  {
    hide OneDecimal, Wrap;
    var totalDelta: int, idleDelta: int := Wrap(t2.total - t1.total), Wrap(t2.idle - t1.idle);
    WrappedDifference(totalDelta, idleDelta);
    if totalDelta > 0 {
      RoundedShareInRangeIff(Wrap(totalDelta - idleDelta), totalDelta);
    }
  }

  lemma WrappedDifference(a: UInt64, b: UInt64)
    ensures var difference: int := a as int - b as int;
            Wrap(difference) == difference + if b <= a then 0 else TWO_TO_THE_64
  {
  }

  /**
    The reported usage: zero when no ticks passed, and otherwise the nearest
    number of tenths to the share of ticks that were not idle, where a wrapped
    idle delta larger than the total one borrows 2^64.
   */
  lemma CPUUsageIff(t1: CpuTicks, t2: CpuTicks, tenths: nat)
    ensures var totalDelta, idleDelta := (t2.total - t1.total) % TWO_TO_THE_64, (t2.idle - t1.idle) % TWO_TO_THE_64;
            var busy := totalDelta - idleDelta + if idleDelta <= totalDelta then 0 else TWO_TO_THE_64;
            if totalDelta == 0 then CPUUsage(t1, t2) == 0.0
            else CPUUsage(t1, t2) == tenths as real / 10.0 <==>
                 Within(2 * tenths - 1, 2000 * busy, 2 * tenths + 1, totalDelta)
  {
    hide OneDecimal, Within;
    assert Wrap(t2.total - t1.total) == (t2.total - t1.total) % TWO_TO_THE_64;
    assert Wrap(t2.idle - t1.idle) == (t2.idle - t1.idle) % TWO_TO_THE_64;
    hide Wrap;
    var totalDelta: int, idleDelta: int := Wrap(t2.total - t1.total), Wrap(t2.idle - t1.idle);
    WrappedDifference(totalDelta, idleDelta);
    if totalDelta > 0 {
      RoundedShareIff(Wrap(totalDelta - idleDelta), totalDelta, tenths);
    }
  }

  /** A kernel that takes counted ticks back makes the usage exceed 100. */
  lemma ShrinkingCounterLeavesRange()
    ensures CPUUsage(TicksOf([5, 0, 0, 0]), TicksOf([4, 0, 0, 2])) > 100.0
  {
    hide Wrap, OneDecimal, CPUUsage;
    SumOfFour(5, 0, 0, 0);
    SumOfFour(4, 0, 0, 2);
    WrapExactIff(5);
    WrapExactIff(6);
    WrapExactIff(1);
    WrapExactIff(2);
    CPUUsageInRangeIff(CpuTicks(5, 0), CpuTicks(6, 2));
  }

  /** An idle counter that goes back by one among a million ticks goes unnoticed. */
  lemma RoundingHidesShrinkingIdle()
    ensures CPUUsage(CpuTicks(0, 1), CpuTicks(1000000, 0)) == 100.0
  {
    assert OneDecimal(100.0001) == 100.0;
    hide Wrap, OneDecimal;
    WrapExactIff(1000000);
    WrappedDifference(0, 1);
    WrappedDifference(1000000, TWO_TO_THE_64 - 1);
    assert 1000001.0 / 1000000.0 * 100.0 == 100.0001;
  }

  /** One more counter counts once. */
  lemma SumExtend(values: seq<UInt64>, v: UInt64)
    ensures Sum(values + [v]) == Sum(values) + v
  {
    assert (values + [v])[..|values|] == values;
  }

  lemma SumOfFour(a: UInt64, b: UInt64, c: UInt64, d: UInt64)
    ensures Sum([a, b, c, d]) == a + b + c + d
  {
    hide Sum;
    SumOfNone();
    SumExtend([], a);
    SumExtend([a], b);
    SumExtend([a, b], c);
    SumExtend([a, b, c], d);
    assert [] + [a] == [a] && [a] + [b] == [a, b] && [a, b] + [c] == [a, b, c] && [a, b, c] + [d] == [a, b, c, d];
  }

  lemma SumOfNone()
    ensures Sum([]) == 0
  {
  }

  lemma {:induction false} SumsGrow(before: seq<UInt64>, after: seq<UInt64>)
    requires |before| == |after| && forall i :: 0 <= i < |before| ==> before[i] <= after[i]
    ensures Sum(before) <= Sum(after)
    ensures forall i :: 0 <= i < |before| ==> after[i] - before[i] <= Sum(after) - Sum(before)
  {
    if before == [] {
    } else {
      var n := |before| - 1;
      SumsGrow(before[..n], after[..n]);
    }
  }

  /** All counters but the idle one. */
  function Busy(values: seq<UInt64>): nat
    requires |values| >= 4
  {
    Sum(values[..3]) + Sum(values[4..])
  }

  lemma {:induction false} BusyAndIdle(values: seq<UInt64>)
    requires |values| >= 4
    ensures Sum(values) == Busy(values) + values[3]
  {
    var n := |values| - 1;
    if n == 3 {
      assert values[..n] == values[..3] && values[4..] == [];
    } else {
      BusyAndIdle(values[..n]);
      assert values[..n][..3] == values[..3];
      assert values[4..][..n - 4] == values[..n][4..];
    }
  }

  /** What the parser makes of the counters of one sample. */
  function TicksOf(values: seq<UInt64>): CpuTicks
    requires |values| >= 4
  {
    CpuTicks(Wrap(Sum(values)), values[3])
  }

  lemma UsageOfDeltas(t1: CpuTicks, t2: CpuTicks, totalDelta: nat, idleDelta: nat)
    requires idleDelta <= totalDelta
    requires Wrap(t2.total - t1.total) == totalDelta && Wrap(t2.idle - t1.idle) == idleDelta
    ensures 0.0 <= CPUUsage(t1, t2) <= 100.0
    ensures totalDelta > 0 ==>
              CPUUsage(t1, t2) == OneDecimal((totalDelta - idleDelta) as real / totalDelta as real * 100.0)
  {
    hide OneDecimal;
    WrapExactIff(totalDelta - idleDelta);
    CPUUsageInRangeIff(t1, t2);
  }

  /**
    Between two samples of the same width whose counters did not decrease and
    advanced by fewer than 2^64 ticks in all, the wrapped deltas are the true
    ones even where the sums wrapped, and the usage is the busy counters' share
    of all ticks, between 0 and 100.
   */
  lemma CPUUsageSurvivesWrapping(before: seq<UInt64>, after: seq<UInt64>)
    requires |before| == |after| >= 4 && forall i :: 0 <= i < |before| ==> before[i] <= after[i]
    requires Sum(after) - Sum(before) < TWO_TO_THE_64
    ensures var t1, t2 := TicksOf(before), TicksOf(after);
            && Wrap(t2.total - t1.total) == Sum(after) - Sum(before)
            && Wrap(t2.idle - t1.idle) == after[3] - before[3]
            && 0.0 <= CPUUsage(t1, t2) <= 100.0
            && (Sum(after) > Sum(before) ==>
                  CPUUsage(t1, t2) == OneDecimal((Busy(after) - Busy(before)) as real
                                                 / (Sum(after) - Sum(before)) as real * 100.0))
  {
    hide Sum, Wrap, OneDecimal, Busy, CPUUsage;
    SumsGrow(before, after);
    WrapDifference(Sum(after), Sum(before));
    WrapExactIff(Sum(after) - Sum(before));
    WrapExactIff(after[3] - before[3]);
    BusyAndIdle(before);
    BusyAndIdle(after);
    UsageOfDeltas(TicksOf(before), TicksOf(after), Sum(after) - Sum(before), after[3] - before[3]);
  }

  // ---- From text to usage ----

  /** `readCPUTicks` looks for the line that starts so. */
  predicate IsCPULine(line: string) {
    |line| >= 4 && line[..4] == "cpu "
  }

  /** The first `cpu` line of a text, if any. */
  function FirstCPULine(lines: seq<string>): Option<string> {
    if lines == [] then None
    else if IsCPULine(lines[0]) then Some(lines[0])
    else FirstCPULine(lines[1..])
  }

  lemma {:induction false} FirstCPULineAt(lines: seq<string>, i: nat)
    requires i <= |lines| && forall j :: 0 <= j < i ==> !IsCPULine(lines[j])
    ensures i == |lines| ==> FirstCPULine(lines) == None
    ensures i < |lines| && IsCPULine(lines[i]) ==> FirstCPULine(lines) == Some(lines[i])
  {
    if i == 0 {
    } else {
      FirstCPULineAt(lines[1..], i - 1);
    }
  }

  /** The ticks a `cpu` line gives, if its counters parse. */
  function TicksOfLine(line: string): Option<CpuTicks> {
    if |Fields(line)| < 5 then None
    else
      match ParseAll(CounterWords(Fields(line)))
      case Some(values) => Some(TicksOf(values))
      case None => None
  }

  function TicksOfText(lines: seq<string>): Option<CpuTicks> {
    match FirstCPULine(lines)
    case Some(line) => TicksOfLine(line)
    case None => None
  }

  /** The words of a line parse to these values exactly when each does to its own. */
  lemma {:induction false} ParseAllIff(words: seq<string>, values: seq<UInt64>)
    ensures ParseAll(words) == Some(values) <==>
            |words| == |values| && forall i :: 0 <= i < |words| ==> ParseUint(words[i]) == Some(values[i])
  {
    hide ParseUint;
    if words == [] {
    } else {
      var n := |words| - 1;
      if |values| == |words| {
        ParseAllIff(words[..n], values[..n]);
        assert values == values[..n] + [values[n]];
        assert forall i :: 0 <= i < n ==> words[..n][i] == words[i] && values[..n][i] == values[i];
      }
    }
  }

  /** The label of the line with all processors' counters. */
  lemma IsCPULineIff(line: string)
    ensures IsCPULine(line) <==> exists rest :: line == "cpu " + rest
  {
    if IsCPULine(line) {
      assert line == "cpu " + line[4..];
    }
  }

  /**
    A line gives ticks exactly when it has at least five fields of which the
    second to the ninth are numbers: their sum, modulo 2^64, and the fourth.
   */
  lemma TicksOfLineIff(line: string, ticks: CpuTicks)
    ensures TicksOfLine(line) == Some(ticks) <==>
            |Fields(line)| >= 5 && exists values :: GivesTicks(CounterWords(Fields(line)), values, ticks)
  {
    hide Fields, ParseAll, ParseUint, Sum;
    if |Fields(line)| >= 5 {
      var words := CounterWords(Fields(line));
      if ParseAll(words).Some? {
        ParseAllIff(words, ParseAll(words).value);
        assert TicksOfLine(line) == Some(ticks) ==> GivesTicks(words, ParseAll(words).value, ticks);
      }
      if values :| GivesTicks(words, values, ticks) {
        ParseAllIff(words, values);
      }
    }
  }

  ghost predicate GivesTicks(words: seq<string>, values: seq<UInt64>, ticks: CpuTicks) {
    && |words| == |values| >= 4 && (forall i :: 0 <= i < |words| ==> ParseUint(words[i]) == Some(values[i]))
    && ticks.total == Sum(values) % TWO_TO_THE_64 && ticks.idle == values[3]
  }

  /** What is wrong with a text: no `cpu` line, too few fields on it, or the first that is not a number. */
  predicate Faulty(lines: seq<string>, error: CpuError) {
    match error
    case NoCPULine => FirstCPULine(lines) == None
    case UnexpectedFormat => FirstCPULine(lines).Some? && |Fields(FirstCPULine(lines).value)| < 5
    case UnparseableField(i) =>
      && FirstCPULine(lines).Some? && |Fields(FirstCPULine(lines).value)| >= 5
      && var words := CounterWords(Fields(FirstCPULine(lines).value));
         i < |words| && ParseUint(words[i]) == None && forall j :: 0 <= j < i ==> ParseUint(words[j]).Some?
  }

  /** `readCPUTicks` on the lines of the file: the ticks of its first `cpu` line, or why there are none. */
  method ReadCPUTicks(lines: seq<string>) returns (r: Result<CpuTicks, CpuError>)
    ensures TicksOfText(lines).Some? ==> r == Ok(TicksOfText(lines).value)
    ensures TicksOfText(lines) == None ==> r.Err? && Faulty(lines, r.error)
  {
    hide Fields, ParseAll, ParseUint, Sum, Wrap;
    var i := 0;
    while i < |lines|
      invariant i <= |lines|
      invariant forall j :: 0 <= j < i ==> !IsCPULine(lines[j])
    {
      FirstCPULineAt(lines, i);
      if IsCPULine(lines[i]) {
        r := ParseCPULine(lines[i]);
        if r.Err? && r.error.UnparseableField? {
          var words := CounterWords(Fields(lines[i]));
          var front := words[..r.error.index];
          ParseAllIff(front, ParseAll(front).value);
          assert forall j :: 0 <= j < |front| ==> front[j] == words[j];
          if ParseAll(words).Some? {
            ParseAllIff(words, ParseAll(words).value);
          }
        }
        return r;
      }
      i := i + 1;
    }
    FirstCPULineAt(lines, i);
    return Err(NoCPULine);
  }

  /** `sampleCPUUsageBetween`, given the file's lines before and after: the usage, or the first read's failure. */
  method SampleCPUUsageBetween(before: seq<string>, after: seq<string>) returns (r: Result<real, CpuError>)
    ensures r.Ok? <==> TicksOfText(before).Some? && TicksOfText(after).Some?
    ensures r.Ok? ==> r.value == CPUUsage(TicksOfText(before).value, TicksOfText(after).value)
    ensures r.Err? ==> Faulty(if TicksOfText(before) == None then before else after, r.error)
  {
    hide TicksOfText, Faulty;
    var first := ReadCPUTicks(before);
    if first.Err? {
      return Err(first.error);
    }
    var second := ReadCPUTicks(after);
    if second.Err? {
      return Err(second.error);
    }
    var t1, t2 := first.value, second.value;
    var totalDelta: int := Wrap(t2.total - t1.total);
    var idleDelta: int := Wrap(t2.idle - t1.idle);
    if totalDelta == 0 {
      return Ok(0.0);
    }
    return Ok(OneDecimal(Wrap(totalDelta - idleDelta) as real / totalDelta as real * 100.0));
  }

  /** The text's first `cpu` line is these counters, printed with blanks between them. */
  ghost predicate Shows(lines: seq<string>, values: seq<UInt64>) {
    exists gaps :: ShowsWith(lines, values, gaps)
  }

  predicate ShowsWith(lines: seq<string>, values: seq<UInt64>, gaps: seq<string>) {
    && |gaps| == |values| + 1
    && (forall i :: 0 <= i < |gaps| ==> AllSpaces(gaps[i]) && (i < |gaps| - 1 ==> gaps[i] != ""))
    && FirstCPULine(lines) == Some(Spaced(["cpu"] + Printed(values), gaps))
  }

  lemma TextShowsTicks(lines: seq<string>, values: seq<UInt64>)
    requires |values| >= 4 && Shows(lines, values)
    ensures TicksOfText(lines) == Some(TicksOf(Counted(values)))
    ensures TicksOfText(lines) == Some(CpuTicks(Sum(Counted(values)) % TWO_TO_THE_64, values[3]))
  {
    hide Fields, ParseAll, Spaced, Printed, FirstCPULine;
    var gaps :| ShowsWith(lines, values, gaps);
    CPULineReadsBack(values, gaps);
  }

  /**
    From text to usage: two texts that show counters of the same width, none
    of which decreased, and which advanced by fewer than 2^64 ticks in all,
    give the busy counters' share of all ticks, between 0 and 100.
   */
  lemma ShownUsage(lines: seq<string>, lines': seq<string>, before: seq<UInt64>, after: seq<UInt64>)
    requires |before| == |after| >= 4 && Shows(lines, before) && Shows(lines', after)
    requires forall i :: 0 <= i < |before| ==> before[i] <= after[i]
    requires Sum(Counted(after)) - Sum(Counted(before)) < TWO_TO_THE_64
    ensures TicksOfText(lines).Some? && TicksOfText(lines').Some?
    ensures var usage, ticks := CPUUsage(TicksOfText(lines).value, TicksOfText(lines').value),
                                Sum(Counted(after)) - Sum(Counted(before));
            && 0.0 <= usage <= 100.0
            && (ticks > 0 ==>
                  usage == OneDecimal((Busy(Counted(after)) - Busy(Counted(before))) as real / ticks as real * 100.0))
  {
    hide Shows, TicksOfText, CPUUsage, Sum, Busy, OneDecimal;
    TextShowsTicks(lines, before);
    TextShowsTicks(lines', after);
    CPUUsageSurvivesWrapping(Counted(before), Counted(after));
  }
}
