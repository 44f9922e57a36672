/**
 `location.pathname` after the browser is given a URL: the path that the URL
 Standard's parser makes of an input that starts with a slash, for a page served
 over http or https. The input is cleaned, cut at its query or fragment, split at
 slashes and backslashes, percent-encoded as UTF-8, and rid of its dot segments.
 */
module UrlPath {
  import opened Text

  // ---------------------------------------------------------------- characters

  /** Printable ASCII outside the path percent-encode set that does not end a segment. */
  predicate PathChar(c: char) {
    '!' <= c <= '~' && c !in "\"#<>?^`{}/\\"
  }

  /** Letters, digits and the marks that stay, the two ends of printable ASCII among them. */
  lemma PathAlphabet(c: char)
    ensures '0' <= c <= '9' || 'A' <= c <= 'Z' || 'a' <= c <= 'z' ==> PathChar(c)
    ensures c <= ' ' || c > '~' ==> !PathChar(c)
    ensures PathChar('!') && PathChar('~') && PathChar('-') && PathChar('.') && PathChar('_') && PathChar('%')
  {
  }

  predicate AllPathChars(s: string) {
    forall i | 0 <= i < |s| :: PathChar(s[i])
  }

  function HexDigit(d: nat): (c: char)
    requires d < 16
    ensures PathChar(c)
  {
    "0123456789ABCDEF"[d]
  }

  function PercentByte(b: nat): (s: string)
    requires b < 256
    ensures AllPathChars(s) && |s| == 3
  {
    ['%', HexDigit(b / 16), HexDigit(b % 16)]
  }

  /** The UTF-8 bytes of a code point. */
  function Utf8(u: nat): (bytes: seq<nat>)
    requires u < 0x11_0000
    ensures forall i | 0 <= i < |bytes| :: bytes[i] < 256
  {
    if u < 0x80 then [u]
    else if u < 0x800 then [0xC0 + u / 0x40, 0x80 + u % 0x40]
    else if u < 0x1_0000 then [0xE0 + u / 0x1000, 0x80 + u / 0x40 % 0x40, 0x80 + u % 0x40]
    else [0xF0 + u / 0x4_0000, 0x80 + u / 0x1000 % 0x40, 0x80 + u / 0x40 % 0x40, 0x80 + u % 0x40]
  }

  function Percents(bytes: seq<nat>): (s: string)
    requires forall i | 0 <= i < |bytes| :: bytes[i] < 256
    ensures AllPathChars(s) && |s| == 3 * |bytes|
  {
    if bytes == [] then "" else PercentByte(bytes[0]) + Percents(bytes[1..])
  }

  /** UTF-8 percent-encoding of one character, those outside the encode set kept. */
  function Encoded(c: char): (s: string)
    ensures AllPathChars(s) && (s == [c] <==> PathChar(c))
  {
    if PathChar(c) then [c] else Percents(Utf8(c as int))
  }

  function Encode(s: string): (r: string)
    ensures AllPathChars(r)
  {
    if s == "" then "" else Encoded(s[0]) + Encode(s[1..])
  }

  function EncodeAll(pieces: seq<string>): (r: seq<string>)
    ensures |r| == |pieces| && forall i | 0 <= i < |r| :: r[i] == Encode(pieces[i])
  {
    seq(|pieces|, i requires 0 <= i < |pieces| => Encode(pieces[i]))
  }

  // -------------------------------------------------------------- dot segments

  predicate SingleDot(s: string) {
    s == "." || s == "%2e" || s == "%2E"
  }

  predicate DoubleDot(s: string) {
    || s == ".." || s == ".%2e" || s == ".%2E" || s == "%2e." || s == "%2E."
    || s == "%2e%2e" || s == "%2e%2E" || s == "%2E%2e" || s == "%2E%2E"
  }

  /** The path without its last segment. */
  function Shorten(path: seq<string>): seq<string> {
    if path == [] then [] else path[..|path| - 1]
  }

  /** A dot segment that comes last leaves an empty segment. */
  function Ended(path: seq<string>, last: bool): seq<string> {
    if last then path + [""] else path
  }

  /** The segments left after dot segments have acted on the path so far. */
  function Resolve(segments: seq<string>, path: seq<string>): seq<string> {
    if segments == [] then path
    else
      var s, rest := segments[0], segments[1..];
      if DoubleDot(s) then Resolve(rest, Ended(Shorten(path), rest == []))
      else if SingleDot(s) then Resolve(rest, Ended(path, rest == []))
      else Resolve(rest, path + [s])
  }

  // --------------------------------------------------------------------- parsing

  /** Leading and trailing control characters and spaces go. */
  function StripControls(s: string): string {
    if s != "" && s[0] <= ' ' then StripControls(s[1..])
    else if s != "" && s[|s| - 1] <= ' ' then StripControls(s[..|s| - 1])
    else s
  }

  /** Tabs, line feeds and carriage returns go. */
  function DropTabs(s: string): string {
    if s == "" then ""
    else if s[0] in "\t\n\r" then DropTabs(s[1..])
    else [s[0]] + DropTabs(s[1..])
  }

  /** What comes before a query or a fragment. */
  function BeforeQuery(s: string): string {
    if s == "" || s[0] == '?' || s[0] == '#' then "" else [s[0]] + BeforeQuery(s[1..])
  }

  /** A backslash separates segments as a slash does. */
  function Slashes(s: string): (r: string)
    ensures |r| == |s| && '\\' !in r
    ensures forall i | 0 <= i < |r| :: r[i] == if s[i] == '\\' then '/' else s[i]
  {
    if s == "" then ""
    else if s[0] == '\\' then "/" + Slashes(s[1..])
    else [s[0]] + Slashes(s[1..])
  }

  function Unrooted(s: string): string {
    if s != "" && s[0] == '/' then s[1..] else s
  }

  function Segments(url: string): seq<string> {
    EncodeAll(Split(Unrooted(Slashes(BeforeQuery(DropTabs(StripControls(url))))), '/'))
  }

  /** The pathname of a URL, resolved against the page's origin. */
  function Pathname(url: string): string {
    "/" + Join(Resolve(Segments(url), []), '/')
  }

  // ------------------------------------------------------------ what pathnames are

  /** A segment that the browser leaves as it is. */
  predicate UrlSafe(s: string) {
    AllPathChars(s) && !SingleDot(s) && !DoubleDot(s)
  }

  /** A slash, and safe segments separated by slashes. */
  predicate IsPathname(p: string) {
    p != "" && p[0] == '/' && forall s | s in Split(p[1..], '/') :: UrlSafe(s)
  }

  lemma NoSlash(s: string)
    requires AllPathChars(s)
    ensures '/' !in s
  {
  }

  lemma {:induction false} ResolveSafe(segments: seq<string>, path: seq<string>)
    requires forall i | 0 <= i < |segments| :: AllPathChars(segments[i])
    requires forall i | 0 <= i < |path| :: UrlSafe(path[i])
    ensures forall i | 0 <= i < |Resolve(segments, path)| :: UrlSafe(Resolve(segments, path)[i])
    ensures segments != [] ==> Resolve(segments, path) != []
    decreases |segments|
  {
    if segments != [] {
      var s, rest := segments[0], segments[1..];
      if DoubleDot(s) {
        ResolveSafe(rest, Ended(Shorten(path), rest == []));
      } else if SingleDot(s) {
        ResolveSafe(rest, Ended(path, rest == []));
      } else {
        ResolveSafe(rest, path + [s]);
      }
    }
  }

  /** Every URL has a pathname of this form. */
  lemma PathnameIs(url: string)
    ensures IsPathname(Pathname(url))
  {
    var resolved := Resolve(Segments(url), []);
    ResolveSafe(Segments(url), []);
    forall i | 0 <= i < |resolved| ensures '/' !in resolved[i] {
      NoSlash(resolved[i]);
    }
    SplitOfJoin(resolved, '/');
    assert Pathname(url)[1..] == Join(resolved, '/');
  }

  // --------------------------------------------------------- what pathnames stay

  /** Path characters and slashes alone. */
  predicate PathText(s: string) {
    forall i | 0 <= i < |s| :: PathChar(s[i]) || s[i] == '/'
  }

  lemma {:induction false} CleanText(s: string)
    requires PathText(s)
    ensures DropTabs(s) == s && BeforeQuery(s) == s && Slashes(s) == s
  {
    if s != "" {
      CleanText(s[1..]);
      assert s == [s[0]] + s[1..];
    }
  }

  lemma {:induction false} EncodeKeepsIff(s: string)
    ensures Encode(s) == s <==> AllPathChars(s)
  {
    if s != "" {
      EncodeKeepsIff(s[1..]);
      assert s == [s[0]] + s[1..];
      if AllPathChars(s) {
        assert AllPathChars(s[1..]);
      }
    }
  }

  lemma EncodeAllKeeps(pieces: seq<string>)
    requires forall i | 0 <= i < |pieces| :: AllPathChars(pieces[i])
    ensures EncodeAll(pieces) == pieces
  {
    forall i | 0 <= i < |pieces| ensures Encode(pieces[i]) == pieces[i] {
      EncodeKeepsIff(pieces[i]);
    }
  }

  lemma {:induction false} ResolveKeeps(segments: seq<string>, path: seq<string>)
    requires forall i | 0 <= i < |segments| :: UrlSafe(segments[i])
    ensures Resolve(segments, path) == path + segments
    decreases |segments|
  {
    if segments == [] {
      assert path + segments == path;
    } else {
      ResolveKeeps(segments[1..], path + [segments[0]]);
      assert path + segments == path + [segments[0]] + segments[1..];
    }
  }

  lemma {:induction false} JoinText(pieces: seq<string>)
    requires forall i | 0 <= i < |pieces| :: AllPathChars(pieces[i])
    ensures PathText(Join(pieces, '/'))
  {
    if |pieces| > 1 {
      JoinText(pieces[1..]);
    }
  }

  lemma PathnameText(p: string)
    requires IsPathname(p)
    ensures PathText(p)
  {
    var pieces := Split(p[1..], '/');
    assert forall i | 0 <= i < |pieces| :: pieces[i] in pieces;
    JoinText(pieces);
    JoinOfSplit(p[1..], '/');
    assert p == ['/'] + p[1..];
  }

  /** The browser leaves a path as it is exactly when it has that form. */
  lemma PathnameFixedIff(p: string)
    ensures Pathname(p) == p <==> IsPathname(p)
  {
    PathnameIs(p);
    if IsPathname(p) {
      var pieces := Split(p[1..], '/');
      assert forall i | 0 <= i < |pieces| :: pieces[i] in pieces;
      PathnameText(p);
      CleanText(p);
      EncodeAllKeeps(pieces);
      ResolveKeeps(pieces, []);
      JoinOfSplit(p[1..], '/');
      assert [] + pieces == pieces;
      assert p == "/" + p[1..];
    }
  }

  // ------------------------------------------------------------- decoding the bytes

  /** The code point of a UTF-8 sequence, from the payload bits of its bytes. */
  function FromUtf8(bytes: seq<int>): int {
    if |bytes| == 1 then bytes[0]
    else if |bytes| == 2 then (bytes[0] - 0xC0) * 0x40 + (bytes[1] - 0x80)
    else if |bytes| == 3 then (bytes[0] - 0xE0) * 0x1000 + (bytes[1] - 0x80) * 0x40 + (bytes[2] - 0x80)
    else if |bytes| == 4 then
      (bytes[0] - 0xF0) * 0x4_0000 + (bytes[1] - 0x80) * 0x1000 + (bytes[2] - 0x80) * 0x40 + (bytes[3] - 0x80)
    else -1
  }

  function HexValue(c: char): int {
    if '0' <= c <= '9' then c as int - '0' as int
    else if 'A' <= c <= 'F' then c as int - 'A' as int + 10
    else -1
  }

  /** The bytes of a text that is percent signs with two hexadecimal digits each. */
  function FromPercents(s: string): seq<int> {
    if |s| < 3 || s[0] != '%' then []
    else [HexValue(s[1]) * 16 + HexValue(s[2])] + FromPercents(s[3..])
  }

  lemma HexDigitValue(d: nat)
    requires d < 16
    ensures HexValue(HexDigit(d)) == d
  {
  }

  lemma PercentByteValue(b: nat)
    requires b < 256
    ensures var s := PercentByte(b); s[0] == '%' && HexValue(s[1]) * 16 + HexValue(s[2]) == b
  {
    HexDigitValue(b / 16);
    HexDigitValue(b % 16);
  }

  lemma DecodeOne(s: string, rest: string, b: int)
    requires |s| == 3 && s[0] == '%' && HexValue(s[1]) * 16 + HexValue(s[2]) == b
    ensures FromPercents(s + rest) == [b] + FromPercents(rest)
  {
    assert (s + rest)[3..] == rest;
  }

  lemma {:induction false} PercentsDecode(bytes: seq<nat>)
    requires forall i | 0 <= i < |bytes| :: bytes[i] < 256
    ensures FromPercents(Percents(bytes)) == bytes
  {
    if bytes != [] {
      PercentsDecode(bytes[1..]);
      PercentByteValue(bytes[0]);
      DecodeOne(PercentByte(bytes[0]), Percents(bytes[1..]), bytes[0]);
    }
  }

  lemma SixBits(u: nat)
    ensures u == u / 0x40 * 0x40 + u % 0x40 && u / 0x1000 == u / 0x40 / 0x40 && u / 0x4_0000 == u / 0x1000 / 0x40
  {
  }

  lemma Utf8Decodes(u: nat)
    requires u < 0x11_0000
    ensures FromUtf8(Utf8(u)) == u
  {
    SixBits(u);
    SixBits(u / 0x40);
    SixBits(u / 0x1000);
  }

  /** What is encoded are the UTF-8 bytes of the character, and they decode to it. */
  lemma EncodedDecodes(c: char)
    requires !PathChar(c)
    ensures FromUtf8(FromPercents(Encoded(c))) == c as int
  {
    PercentsDecode(Utf8(c as int));
    Utf8Decodes(c as int);
  }

  // ------------------------------------------------- queries and steps up in general

  lemma {:induction false} StripKeepsFront(a: string, b: string) returns (kept: string)
    requires a != "" && a[0] > ' ' && a[|a| - 1] > ' '
    ensures StripControls(a + b) == a + kept && kept <= b
    decreases |b|
  {
    if b == "" {
      kept := "";
      assert a + b == a && a + kept == a;
    } else if b[|b| - 1] <= ' ' {
      kept := StripKeepsFront(a, b[..|b| - 1]);
      assert (a + b)[..|a + b| - 1] == a + b[..|b| - 1];
      assert (a + b)[0] == a[0] && (a + b)[|a + b| - 1] == b[|b| - 1];
    } else {
      kept := b;
      assert (a + b)[0] == a[0] && (a + b)[|a + b| - 1] == b[|b| - 1];
    }
  }

  lemma {:induction false} DropTabsConcat(a: string, b: string)
    ensures DropTabs(a + b) == DropTabs(a) + DropTabs(b)
  {
    if a == "" {
      assert a + b == b;
    } else {
      assert (a + b)[1..] == a[1..] + b;
      DropTabsConcat(a[1..], b);
    }
  }

  lemma {:induction false} QueryCut(a: string, b: string)
    requires PathText(a) && b != "" && b[0] in "?#"
    ensures BeforeQuery(a + b) == a
  {
    if a == "" {
      assert a + b == b;
    } else {
      assert (a + b)[1..] == a[1..] + b;
      QueryCut(a[1..], b);
      assert a == [a[0]] + a[1..];
    }
  }

  /** A query or a fragment leaves the pathname alone. */
  lemma QueryIgnored(p: string, mark: char, query: string)
    requires IsPathname(p) && mark in "?#"
    ensures Pathname(p + [mark] + query) == p
  {
    PathnameText(p);
    var url := p + [mark];
    assert url[0] == p[0] && url[|url| - 1] == mark;
    var kept := StripKeepsFront(url, query);
    DropTabsConcat(url, kept);
    DropTabsConcat(p, [mark]);
    CleanText(p);
    assert [mark][1..] == "" && DropTabs([mark]) == [mark];
    var cleaned := DropTabs(StripControls(url + query));
    assert cleaned == p + ([mark] + DropTabs(kept));
    QueryCut(p, [mark] + DropTabs(kept));
    PathnameFixedIff(p);
    SamePathname(url + query, p, cleaned);
  }

  lemma SamePathname(url: string, p: string, cleaned: string)
    requires cleaned == DropTabs(StripControls(url)) && BeforeQuery(cleaned) == p
    requires IsPathname(p)
    ensures Pathname(url) == p
  {
    PathnameText(p);
    CleanText(p);
    PathnameFixedIff(p);
    OuterClean(p);
  }

  lemma OuterClean(p: string)
    requires PathText(p)
    ensures StripControls(p) == p
  {
  }

  lemma {:induction false} ResolvePrefix(pre: seq<string>, rest: seq<string>, path: seq<string>)
    requires rest != [] && forall i | 0 <= i < |pre| :: UrlSafe(pre[i])
    ensures Resolve(pre + rest, path) == Resolve(rest, path + pre)
    decreases |pre|
  {
    if pre == [] {
      assert pre + rest == rest && path + pre == path;
    } else {
      assert (pre + rest)[1..] == pre[1..] + rest;
      ResolvePrefix(pre[1..], rest, path + [pre[0]]);
      assert path + [pre[0]] + pre[1..] == path + pre;
    }
  }

  lemma DotStep(rest: seq<string>, path: seq<string>)
    requires rest != []
    ensures Resolve(["."] + rest, path) == Resolve(rest, path)
    ensures Resolve([".."] + rest, path) == Resolve(rest, Shorten(path))
  {
    assert (["."] + rest)[1..] == rest && ([".."] + rest)[1..] == rest;
  }

  /** A double-dot segment takes back the segment before it. */
  lemma DoubleDotResolves(pre: seq<string>, s: string, rest: seq<string>)
    requires rest != [] && UrlSafe(s) && forall i | 0 <= i < |pre| :: UrlSafe(pre[i])
    ensures Resolve(pre + [s] + ([".."] + rest), []) == Resolve(pre + rest, [])
  {
    ResolvePrefix(pre + [s], [".."] + rest, []);
    ResolvePrefix(pre, rest, []);
    DotStep(rest, pre + [s]);
    assert [] + (pre + [s]) == pre + [s] && [] + pre == pre && (pre + [s])[..|pre|] == pre;
  }

  /** A single-dot segment takes back nothing. */
  lemma SingleDotResolves(pre: seq<string>, rest: seq<string>)
    requires rest != [] && forall i | 0 <= i < |pre| :: UrlSafe(pre[i])
    ensures Resolve(pre + (["."] + rest), []) == Resolve(pre + rest, [])
  {
    ResolvePrefix(pre, ["."] + rest, []);
    ResolvePrefix(pre, rest, []);
    DotStep(rest, [] + pre);
  }

  lemma LastDotStep(path: seq<string>)
    ensures Resolve([".."], path) == Shorten(path) + [""] && Resolve(["."], path) == path + [""]
  {
    assert [".."][1..] == [] && ["."][1..] == [];
  }

  /** A double-dot segment at the end takes back the segment before it and leaves an empty one. */
  lemma LastDoubleDot(pre: seq<string>, s: string)
    requires UrlSafe(s) && forall i | 0 <= i < |pre| :: UrlSafe(pre[i])
    ensures Resolve(pre + [s] + [".."], []) == pre + [""]
  {
    ResolvePrefix(pre + [s], [".."], []);
    LastDotStep(pre + [s]);
    assert [] + (pre + [s]) == pre + [s] && (pre + [s])[..|pre|] == pre;
  }

  /** The text with every percent-encoded dot written as a dot. */
  function PlainDots(s: string): string {
    if s == "" then ""
    else if "%2e" <= s || "%2E" <= s then "." + PlainDots(s[3..])
    else [s[0]] + PlainDots(s[1..])
  }

  lemma {:induction false} PlainDotsEmpty(s: string)
    ensures PlainDots(s) == "" <==> s == ""
  {
  }

  lemma OneDotIff(s: string)
    ensures PlainDots(s) == "." <==> SingleDot(s)
  {
    if s != "" {
      PlainDotsEmpty(s[1..]);
      if |s| >= 3 { PlainDotsEmpty(s[3..]); }
      if s == "%2e" || s == "%2E" { assert s[3..] == ""; }
      if s == "." { assert s[1..] == ""; }
    }
  }

  /** Dot segments are one dot or two, however each is written. */
  lemma DotForms(s: string)
    ensures SingleDot(s) <==> PlainDots(s) == "."
    ensures DoubleDot(s) <==> PlainDots(s) == ".."
  {
    OneDotIff(s);
    if s != "" {
      OneDotIff(s[1..]);
      if |s| >= 3 { OneDotIff(s[3..]); }
      TwoDots(s);
      HeadDot(s[0], PlainDots(s[1..]));
      if |s| >= 3 { HeadDot('.', PlainDots(s[3..])); }
    }
  }

  lemma HeadDot(c: char, rest: string)
    ensures [c] + rest == ".." <==> c == '.' && rest == "."
  {
    if [c] + rest == ".." {
      assert ([c] + rest)[0] == c && ([c] + rest)[1..] == rest;
    }
  }

  lemma TwoDots(s: string)
    requires s != ""
    ensures DoubleDot(s) <==>
            || (s[0] == '.' && SingleDot(s[1..]))
            || (("%2e" <= s || "%2E" <= s) && SingleDot(s[3..]))
  {
    assert s == [s[0]] + s[1..];
    if |s| >= 3 {
      assert s == s[..3] + s[3..];
    }
  }
}
