/** The pure part of the breach check: the range query built from the hash
    prefix, and the scan of the `SUFFIX:COUNT` response body for the suffix. */
module Breach {
  import opened Wrappers
  import opened CharClass
  import opened Hex

  /** The range endpoint of the Pwned Passwords service; the prefix is appended. */
  const RangeApi: string := "https://api.pwnedpasswords.com/range/"

  // ---------------------------------------------------------------- split

  /** `s.split(sep)` for a one-character separator: never empty, one piece
      more than there are separators. */
  function Split(s: string, sep: char): (r: seq<string>)
    ensures |r| >= 1
    ensures forall i :: 0 <= i < |r| ==> sep !in r[i]
    decreases |s|
  {
    if s == [] then [""]
    else
      var rest := Split(s[1..], sep);
      if s[0] == sep then [""] + rest
      else [[s[0]] + rest[0]] + rest[1..]
  }

  /** `pieces.join(sep)`. */
  function Join(pieces: seq<string>, sep: char): string
    decreases |pieces|
  {
    if pieces == [] then ""
    else if |pieces| == 1 then pieces[0]
    else pieces[0] + [sep] + Join(pieces[1..], sep)
  }

  lemma JoinCons(p: string, rest: seq<string>, sep: char)
    requires rest != []
    ensures Join([p] + rest, sep) == p + [sep] + Join(rest, sep)
  {
    assert ([p] + rest)[1..] == rest;
  }

  lemma JoinExtendHead(c: char, pieces: seq<string>, sep: char)
    requires pieces != []
    ensures Join([[c] + pieces[0]] + pieces[1..], sep) == [c] + Join(pieces, sep)
  {
    if |pieces| > 1 {
      JoinCons([c] + pieces[0], pieces[1..], sep);
      JoinCons(pieces[0], pieces[1..], sep);
      assert [pieces[0]] + pieces[1..] == pieces;
    }
  }

  /** Joining the pieces of a split gives back the original text. */
  lemma {:induction false} JoinSplit(s: string, sep: char)
    ensures Join(Split(s, sep), sep) == s
    decreases |s|
  {
    if s != [] {
      var rest := Split(s[1..], sep);
      JoinSplit(s[1..], sep);
      if s[0] == sep {
        JoinCons("", rest, sep);
      } else {
        JoinExtendHead(s[0], rest, sep);
      }
      assert [s[0]] + s[1..] == s;
    }
  }

  /** A leading stretch without separators sticks to the first piece. */
  lemma {:induction false} SplitAfterPlainPrefix(a: string, tail: string, sep: char)
    requires sep !in a
    ensures Split(a + tail, sep) == [a + Split(tail, sep)[0]] + Split(tail, sep)[1..]
    decreases |a|
  {
    if a != [] {
      assert (a + tail)[1..] == a[1..] + tail;
      assert (a + tail)[0] == a[0];
      SplitAfterPlainPrefix(a[1..], tail, sep);
      assert [a[0]] + (a[1..] + Split(tail, sep)[0]) == a + Split(tail, sep)[0];
    } else {
      var t := Split(tail, sep);
      assert a + tail == tail;
      assert a + t[0] == t[0];
      assert t == [t[0]] + t[1..];
    }
  }

  lemma SplitAtSeparator(tail: string, sep: char)
    ensures Split([sep] + tail, sep) == [""] + Split(tail, sep)
  {
    assert ([sep] + tail)[1..] == tail;
  }

  /** Splitting a join of separator-free pieces gives back the pieces. */
  lemma {:induction false} SplitJoin(pieces: seq<string>, sep: char)
    requires |pieces| >= 1
    requires forall i :: 0 <= i < |pieces| ==> sep !in pieces[i]
    ensures Split(Join(pieces, sep), sep) == pieces
    decreases |pieces|
  {
    if |pieces| == 1 {
      SplitAfterPlainPrefix(pieces[0], "", sep);
      assert Split("", sep) == [""];
      assert pieces[0] + "" == pieces[0];
    } else {
      var tail := Join(pieces[1..], sep);
      SplitJoin(pieces[1..], sep);
      SplitAtSeparator(tail, sep);
      SplitAfterPlainPrefix(pieces[0], [sep] + tail, sep);
      assert Join(pieces, sep) == pieces[0] + ([sep] + tail);
      assert Split([sep] + tail, sep)[0] == "";
      assert Split([sep] + tail, sep)[1..] == pieces[1..];
      assert pieces[0] + "" == pieces[0];
      assert [pieces[0]] + pieces[1..] == pieces;
    }
  }

  /** The first piece is the text up to the first separator. */
  lemma {:induction false} SplitHeadIsPrefix(s: string, sep: char)
    ensures |Split(s, sep)[0]| <= |s|
    ensures Split(s, sep)[0] == s[..|Split(s, sep)[0]|]
    decreases |s|
  {
    if s != [] {
      SplitHeadIsPrefix(s[1..], sep);
    }
  }

  // ---------------------------------------------------------------- find

  /** `line.startsWith(prefix)`. */
  predicate StartsWith(line: string, prefix: string) {
    |prefix| <= |line| && line[..|prefix|] == prefix
  }

  /** `lines.find(line => line.startsWith(suffix))`, as the index of the line found. */
  function FindLine(lines: seq<string>, suffix: string): (r: Option<nat>)
    ensures r.Some? ==> r.value < |lines| && StartsWith(lines[r.value], suffix)
    ensures r.Some? ==> forall j :: 0 <= j < r.value ==> !StartsWith(lines[j], suffix)
    ensures r.None? <==> forall j :: 0 <= j < |lines| ==> !StartsWith(lines[j], suffix)
    decreases |lines|
  {
    if lines == [] then None
    else if StartsWith(lines[0], suffix) then Some(0)
    else match FindLine(lines[1..], suffix)
      case None => None
      case Some(i) => Some(i + 1)
  }

  // ---------------------------------------------------------------- parseInt

  /** The length of the run of decimal digits `s` starts with. */
  function DigitRun(s: string): (n: nat)
    ensures n <= |s|
    ensures forall i :: 0 <= i < n ==> IsAsciiDigit(s[i])
    ensures n == |s| || !IsAsciiDigit(s[n])
    decreases |s|
  {
    if s == [] || !IsAsciiDigit(s[0]) then 0 else 1 + DigitRun(s[1..])
  }

  /** The value of a string of decimal digits, most significant first. */
  function DecimalValue(ds: string): nat
    requires forall i :: 0 <= i < |ds| ==> IsAsciiDigit(ds[i])
    decreases |ds|
  {
    if ds == [] then 0
    else
      var last := ds[|ds| - 1];
      assert IsAsciiDigit(last);
      DecimalValue(ds[..|ds| - 1]) * 10 + (last as int - '0' as int)
  }

  /** `parseInt` on a string that starts with its digits: `None` stands for NaN. */
  function ParseInt(s: string): (r: Option<nat>)
    ensures r.None? <==> s == [] || !IsAsciiDigit(s[0])
  {
    var n := DigitRun(s);
    if n == 0 then None else Some(DecimalValue(s[..n]))
  }

  /** `n.toString()` for a non-negative integer. */
  function DecimalString(n: nat): (r: string)
    ensures |r| >= 1
    ensures forall i :: 0 <= i < |r| ==> IsAsciiDigit(r[i])
    decreases n
  {
    if n < 10 then [('0' as int + n) as char]
    else DecimalString(n / 10) + [('0' as int + n % 10) as char]
  }

  lemma {:induction false} DecimalValueOfString(n: nat)
    ensures DecimalValue(DecimalString(n)) == n
    decreases n
  {
    if n >= 10 {
      var ds := DecimalString(n);
      assert ds[..|ds| - 1] == DecimalString(n / 10);
      DecimalValueOfString(n / 10);
    }
  }

  lemma {:induction false} DigitRunAfterDigits(ds: string, rest: string)
    requires forall i :: 0 <= i < |ds| ==> IsAsciiDigit(ds[i])
    requires rest == [] || !IsAsciiDigit(rest[0])
    ensures DigitRun(ds + rest) == |ds|
    decreases |ds|
  {
    if ds == [] {
      assert ds + rest == rest;
    } else {
      assert (ds + rest)[0] == ds[0];
      assert (ds + rest)[1..] == ds[1..] + rest;
      DigitRunAfterDigits(ds[1..], rest);
    }
  }

  /** `parseInt` reads back a rendered number followed by a non-digit. */
  lemma ParseIntDecimalString(n: nat, rest: string)
    requires rest == [] || !IsAsciiDigit(rest[0])
    ensures ParseInt(DecimalString(n) + rest) == Some(n)
  {
    var ds := DecimalString(n);
    DigitRunAfterDigits(ds, rest);
    assert (ds + rest)[..|ds|] == ds;
    DecimalValueOfString(n);
  }

  // ---------------------------------------------------------------- scan

  /** What ends up in `breachCount` after a match: a count, or NaN. */
  datatype Reading = Count(n: nat) | NotANumber

  /** `parseInt(found.split(':')[1])`; a line without `:` yields NaN. */
  function CountField(line: string): (r: Reading)
    ensures ':' !in line ==> r == NotANumber
  {
    var fields := Split(line, ':');
    SplitJoinSingle(line, ':');
    if |fields| < 2 then NotANumber
    else match ParseInt(fields[1])
      case Some(n) => Count(n)
      case None => NotANumber
  }

  lemma SplitJoinSingle(line: string, sep: char)
    ensures sep !in line ==> Split(line, sep) == [line]
  {
    if sep !in line {
      SplitAfterPlainPrefix(line, "", sep);
      assert line + "" == line;
    }
  }

  /** A `SUFFIX:COUNT` record yields its count, whatever follows the digits. */
  lemma CountFieldOfRecord(suffix: string, n: nat, rest: string)
    requires ':' !in suffix
    requires rest == [] || !IsAsciiDigit(rest[0])
    ensures CountField(suffix + [':'] + DecimalString(n) + rest) == Count(n)
  {
    var ds := DecimalString(n);
    var line := suffix + [':'] + ds + rest;
    assert line == suffix + ([':'] + (ds + rest));
    SplitAfterPlainPrefix(suffix, [':'] + (ds + rest), ':');
    SplitAtSeparator(ds + rest, ':');
    assert ':' !in ds;
    SplitAfterPlainPrefix(ds, rest, ':');
    var head := Split(rest, ':')[0];
    SplitHeadIsPrefix(rest, ':');
    assert Split(line, ':')[1] == ds + head;
    assert head == [] || head[0] == rest[0];
    ParseIntDecimalString(n, head);
  }

  /** The branch on `found`: a found, non-empty line gives its reading;
      no match (or an empty line, which is falsy) gives none. */
  function ScanLines(lines: seq<string>, suffix: string): (r: Option<Reading>)
    ensures (forall j :: 0 <= j < |lines| ==> !StartsWith(lines[j], suffix)) ==> r.None?
    ensures suffix != "" && (exists j :: 0 <= j < |lines| && StartsWith(lines[j], suffix)) ==> r.Some?
    ensures r.Some? ==> exists i :: FindLine(lines, suffix) == Some(i) && r.value == CountField(lines[i])
  {
    match FindLine(lines, suffix)
    case Some(i) => if lines[i] != "" then Some(CountField(lines[i])) else None
    case None => None
  }

  /** The response body split at `\n` and scanned for the suffix. */
  function ScanResponse(body: string, suffix: string): (r: Option<Reading>)
    ensures (forall l :: l in Split(body, '\n') ==> !StartsWith(l, suffix)) ==> r.None?
    ensures suffix != "" && (exists l :: l in Split(body, '\n') && StartsWith(l, suffix)) ==> r.Some?
    ensures r.Some? ==> exists l :: l in Split(body, '\n') && StartsWith(l, suffix) && r.value == CountField(l)
  {
    var lines := Split(body, '\n');
    var r := ScanLines(lines, suffix);
    assert forall l :: l in lines <==> exists j :: 0 <= j < |lines| && lines[j] == l;
    r
  }

  /** A body of several records scans as its records do. */
  lemma ScanResponseOfJoin(lines: seq<string>, suffix: string)
    requires |lines| >= 1
    requires forall i :: 0 <= i < |lines| ==> '\n' !in lines[i]
    ensures ScanResponse(Join(lines, '\n'), suffix) == ScanLines(lines, suffix)
  {
    SplitJoin(lines, '\n');
  }

  /** Records before the first match do not influence the result. */
  lemma {:induction false} ScanIgnoresEarlierLines(pre: seq<string>, post: seq<string>, suffix: string)
    requires forall j :: 0 <= j < |pre| ==> !StartsWith(pre[j], suffix)
    ensures ScanLines(pre + post, suffix) == ScanLines(post, suffix)
    decreases |pre|
  {
    if pre != [] {
      ScanIgnoresEarlierLines(pre[1..], post, suffix);
      assert pre + post == [pre[0]] + (pre[1..] + post);
      ScanSkipsLine(pre[0], pre[1..] + post, suffix);
    } else {
      assert pre + post == post;
    }
  }

  /** One non-matching line in front changes nothing. */
  lemma ScanSkipsLine(line: string, rest: seq<string>, suffix: string)
    requires !StartsWith(line, suffix)
    ensures ScanLines([line] + rest, suffix) == ScanLines(rest, suffix)
  {
    var all := [line] + rest;
    assert all[1..] == rest;
    match FindLine(rest, suffix)
    case Some(i) =>
      assert FindLine(all, suffix) == Some(i + 1);
      assert all[i + 1] == rest[i];
    case None =>
  }

  /** A record `SUFFIX:COUNT` after non-matching records yields COUNT. */
  lemma ScanFindsRecord(pre: seq<string>, suffix: string, n: nat, rest: string, post: seq<string>)
    requires ':' !in suffix
    requires rest == [] || !IsAsciiDigit(rest[0])
    requires forall j :: 0 <= j < |pre| ==> !StartsWith(pre[j], suffix)
    ensures ScanLines(pre + [suffix + [':'] + DecimalString(n) + rest] + post, suffix) == Some(Count(n))
  {
    var line := suffix + [':'] + DecimalString(n) + rest;
    assert pre + [line] + post == pre + ([line] + post);
    ScanIgnoresEarlierLines(pre, [line] + post, suffix);
    assert line[..|suffix|] == suffix;
    CountFieldOfRecord(suffix, n, rest);
  }

  /** A multi-line body whose first record for the suffix is `SUFFIX:COUNT`
      reports COUNT. */
  lemma ScanBodyFindsRecord(pre: seq<string>, suffix: string, n: nat, rest: string, post: seq<string>)
    requires ':' !in suffix
    requires rest == [] || !IsAsciiDigit(rest[0])
    requires forall j :: 0 <= j < |pre| ==> !StartsWith(pre[j], suffix)
    requires forall i :: 0 <= i < |pre + [suffix + [':'] + DecimalString(n) + rest] + post| ==>
               '\n' !in (pre + [suffix + [':'] + DecimalString(n) + rest] + post)[i]
    ensures ScanResponse(Join(pre + [suffix + [':'] + DecimalString(n) + rest] + post, '\n'), suffix) == Some(Count(n))
  {
    ScanResponseOfJoin(pre + [suffix + [':'] + DecimalString(n) + rest] + post, suffix);
    ScanFindsRecord(pre, suffix, n, rest, post);
  }

  /** A one-record body `SUFFIX:42` reports 42. */
  lemma ScanSingleRecord(suffix: string)
    requires ':' !in suffix && '\n' !in suffix
    ensures ScanResponse(suffix + ":42", suffix) == Some(Count(42))
  {
    var body := suffix + ":42";
    assert DecimalString(42) == "42";
    assert body == suffix + [':'] + DecimalString(42) + "";
    assert '\n' !in body;
    SplitJoinSingle(body, '\n');
    ScanFindsRecord([], suffix, 42, "", []);
    assert [] + [body] + [] == [body];
  }

  // ---------------------------------------------------------------- protocol

  /** The range prefix of a digest, as put into the request. */
  function RangeUrl(digest: seq<byte>): (url: string)
    ensures |digest| == DigestLength ==> |url| == |RangeApi| + 5
    ensures |RangeApi| <= |url| && url[..|RangeApi|] == RangeApi
  {
    RangeApi + SplitRange(HashHex(digest)).0
  }

  /** The request reveals the first twenty bits of the digest and nothing more:
      two digests give the same request exactly when they agree on them. */
  lemma RangeUrlRevealsTwentyBits(d1: seq<byte>, d2: seq<byte>)
    requires |d1| == DigestLength && |d2| == DigestLength
    ensures RangeUrl(d1) == RangeUrl(d2)
            <==> d1[0] == d2[0] && d1[1] == d2[1] && d1[2] as nat / 16 == d2[2] as nat / 16
  {
    var h1, h2 := HashHex(d1), HashHex(d2);
    UrlEqualIffPrefixEqual(h1[..5], h2[..5]);
    PrefixEqualIffDigits(h1, h2);
    ByteDigitsAgree(d1, d2, 0);
    ByteDigitsAgree(d1, d2, 1);
    HighDigitAgree(d1, d2, 2);
  }

  lemma UrlEqualIffPrefixEqual(p1: string, p2: string)
    requires |p1| == |p2|
    ensures RangeApi + p1 == RangeApi + p2 <==> p1 == p2
  {
    if RangeApi + p1 == RangeApi + p2 {
      assert p1 == (RangeApi + p1)[|RangeApi|..];
      assert p2 == (RangeApi + p2)[|RangeApi|..];
    }
  }

  lemma PrefixEqualIffDigits(h1: string, h2: string)
    requires |h1| >= 5 && |h2| >= 5
    ensures h1[..5] == h2[..5]
            <==> h1[0] == h2[0] && h1[1] == h2[1] && h1[2] == h2[2] && h1[3] == h2[3] && h1[4] == h2[4]
  {
    if h1[..5] == h2[..5] {
      assert h1[..5][0] == h1[0] && h1[..5][1] == h1[1] && h1[..5][2] == h1[2];
      assert h1[..5][3] == h1[3] && h1[..5][4] == h1[4];
      assert h2[..5][0] == h2[0] && h2[..5][1] == h2[1] && h2[..5][2] == h2[2];
      assert h2[..5][3] == h2[3] && h2[..5][4] == h2[4];
    }
  }

  /** Two digits of the rendering agree exactly when the byte they render agrees. */
  lemma ByteDigitsAgree(d1: seq<byte>, d2: seq<byte>, k: nat)
    requires k < |d1| && k < |d2|
    ensures HashHex(d1)[2 * k] == HashHex(d2)[2 * k] && HashHex(d1)[2 * k + 1] == HashHex(d2)[2 * k + 1]
            <==> d1[k] == d2[k]
  {
    HighDigitAgree(d1, d2, k);
    HashHexAt(d1, k);
    HashHexAt(d2, k);
    var b1, b2 := d1[k] as nat, d2[k] as nat;
    UpperDigitInjective(b1 % 16, b2 % 16);
    assert b1 == (b1 / 16) * 16 + b1 % 16;
    assert b2 == (b2 / 16) * 16 + b2 % 16;
  }

  /** The first digit of a byte agrees exactly when its high nibble agrees. */
  lemma HighDigitAgree(d1: seq<byte>, d2: seq<byte>, k: nat)
    requires k < |d1| && k < |d2|
    ensures HashHex(d1)[2 * k] == HashHex(d2)[2 * k] <==> d1[k] as nat / 16 == d2[k] as nat / 16
  {
    HashHexAt(d1, k);
    HashHexAt(d2, k);
    UpperDigitInjective(d1[k] as nat / 16, d2[k] as nat / 16);
  }

  lemma UpperDigitInjective(a: nat, b: nat)
    requires a < 16 && b < 16
    ensures UpperDigit(a) == UpperDigit(b) <==> a == b
  {
    DigitValueOfUpperDigit(a);
    DigitValueOfUpperDigit(b);
  }

  /** How one check ends: any thrown error, or a scan of the body (with no
      reading when no line matched). */
  datatype CheckOutcome = Failed | Completed(found: Option<Reading>)

  /** Hash rendering, request, and scan. `respond` stands for the network:
      the body served for a URL, or `None` when the request or body read fails. */
  function RunProtocol(digest: seq<byte>, respond: string -> Option<string>): (r: CheckOutcome)
    ensures r == Failed <==> respond(RangeUrl(digest)).None?
  {
    var parts := SplitRange(HashHex(digest));
    match respond(RangeApi + parts.0)
    case None => Failed
    case Some(body) => Completed(ScanResponse(body, parts.1))
  }

  /** The outcome depends on the network only through the one range request. */
  lemma ProtocolAsksOnlyRange(digest: seq<byte>, respond1: string -> Option<string>, respond2: string -> Option<string>)
    requires respond1(RangeUrl(digest)) == respond2(RangeUrl(digest))
    ensures RunProtocol(digest, respond1) == RunProtocol(digest, respond2)
  {
  }
}
