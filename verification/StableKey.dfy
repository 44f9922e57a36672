/**
 Catalog and entitlement keys: the six-stage rewriting that turns typed text
 into a key, and the tokenise-and-join reading it amounts to.

 `lower` stands for `toLowerCase`, taken one character at a time; a character may
 lower to several. All that is assumed of it is `KeepsAscii`.
 */
module StableKey {
  import opened Text

  const MAX_LENGTH: nat := 100

  /** `[a-z0-9:_]`. */
  predicate IsToken(c: char) {
    'a' <= c <= 'z' || '0' <= c <= '9' || c == ':' || c == '_'
  }

  /** `[a-z0-9:_-]`. */
  predicate IsKeyChar(c: char) {
    IsToken(c) || c == '-'
  }

  /** Lower-casing leaves key characters and white space alone. */
  ghost predicate KeepsAscii(lower: char -> string) {
    forall c: char :: IsKeyChar(c) || IsSpace(c) ==> lower(c) == [c]
  }

  // -------------------------------------------------------------- the stages

  function Lower(s: string, lower: char -> string): string {
    if s == "" then "" else lower(s[0]) + Lower(s[1..], lower)
  }

  /** The characters a replacement is after: `[^a-z0-9:_-]`, `-`, or either. */
  datatype CharClass = Foreign | Hyphen | Separator {
    predicate Has(c: char) {
      match this
      case Foreign => !IsKeyChar(c)
      case Hyphen => c == '-'
      case Separator => !IsToken(c)
    }
  }

  /** `replace(/[class]+/g, "-")`, scanning left to right; inRun says a run is open and its hyphen written. */
  function ReplaceRuns(s: string, kind: CharClass, inRun: bool): string {
    if s == "" then ""
    else if kind.Has(s[0]) then
      if inRun then ReplaceRuns(s[1..], kind, true)
      else "-" + ReplaceRuns(s[1..], kind, true)
    else [s[0]] + ReplaceRuns(s[1..], kind, false)
  }

  /** `replace(/^-|-$/g, "")`: one hyphen off each end. */
  function StripEnds(s: string): string {
    StripLast(StripFirst(s))
  }

  function StripFirst(s: string): string {
    if s != "" && s[0] == '-' then s[1..] else s
  }

  function StripLast(s: string): string {
    if s != "" && s[|s| - 1] == '-' then s[..|s| - 1] else s
  }

  /** `slice(0, 100)`. */
  function Cut(s: string): string {
    if |s| <= MAX_LENGTH then s else s[..MAX_LENGTH]
  }

  function StableKey(value: string, lower: char -> string): string {
    var lowered := Lower(Trim(value), lower);
    var hyphenated := ReplaceRuns(lowered, Foreign, false);
    var collapsed := ReplaceRuns(hyphenated, Hyphen, false);
    Cut(StripEnds(collapsed))
  }

  // ------------------------------------------------------- tokenise and join

  predicate AllTokens(s: string) {
    forall i | 0 <= i < |s| :: IsToken(s[i])
  }

  predicate NoTokens(s: string) {
    forall i | 0 <= i < |s| :: !IsToken(s[i])
  }

  /** The length of the token run at the front of s. */
  function RunLength(s: string): (n: nat)
    ensures n <= |s| && AllTokens(s[..n])
    ensures n < |s| ==> !IsToken(s[n])
    ensures s != "" && IsToken(s[0]) ==> n > 0
  {
    if s == "" || !IsToken(s[0]) then 0
    else
      var n := 1 + RunLength(s[1..]);
      assert s[..n] == [s[0]] + s[1..][..n - 1];
      n
  }

  /** The maximal token runs of s, in order. */
  function Tokens(s: string): (ts: seq<string>)
    ensures forall t | t in ts :: t != "" && AllTokens(t)
    decreases |s|
  {
    if s == "" then []
    else if !IsToken(s[0]) then Tokens(s[1..])
    else [s[..RunLength(s)]] + Tokens(s[RunLength(s)..])
  }

  // ------------------------------------------------------------ two replacements are one

  /** Replacing foreign runs and then collapsing hyphens is replacing runs of separators. */
  lemma {:induction false} ReplaceThenCollapse(s: string, a: bool, b: bool)
    requires a ==> b
    ensures ReplaceRuns(ReplaceRuns(s, Foreign, a), Hyphen, b) == ReplaceRuns(s, Separator, b)
  {
    if s != "" {
      var rest := s[1..];
      if IsToken(s[0]) {
        ReplaceThenCollapse(rest, false, false);
        HyphenStep(s[0], ReplaceRuns(rest, Foreign, false), b);
      } else if s[0] == '-' {
        ReplaceThenCollapse(rest, false, true);
        HyphenStep('-', ReplaceRuns(rest, Foreign, false), b);
      } else {
        ReplaceThenCollapse(rest, true, true);
        HyphenStep('-', ReplaceRuns(rest, Foreign, true), b);
      }
    }
  }

  lemma HyphenStep(c: char, t: string, b: bool)
    ensures ReplaceRuns([c] + t, Hyphen, b)
         == if c != '-' then [c] + ReplaceRuns(t, Hyphen, false)
            else if b then ReplaceRuns(t, Hyphen, true)
            else "-" + ReplaceRuns(t, Hyphen, true)
  {
    assert ([c] + t)[1..] == t;
  }

  // -------------------------------------------------- one replacement is a join

  lemma {:induction false} RunsKeepTokens(run: string, rest: string, b: bool)
    requires AllTokens(run) && run != ""
    ensures ReplaceRuns(run + rest, Separator, b) == run + ReplaceRuns(rest, Separator, false)
  {
    var tail := run[1..];
    assert (run + rest)[1..] == tail + rest;
    if tail == "" {
      assert tail + rest == rest;
    } else {
      RunsKeepTokens(tail, rest, false);
    }
    assert run == [run[0]] + tail;
    ConcatAssoc([run[0]], tail, ReplaceRuns(rest, Separator, false));
  }

  function Tail(s: string): string {
    if Tokens(s) != [] && !IsToken(s[|s| - 1]) then "-" else ""
  }

  /** With leading separators swallowed, only a trailing hyphen can be left over. */
  lemma {:induction false} RunsAreJoined(s: string)
    ensures ReplaceRuns(s, Separator, true) == Join(Tokens(s), '-') + Tail(s)
    decreases |s|
  {
    if s != "" {
      if !IsToken(s[0]) {
        RunsAreJoined(s[1..]);
        assert |s| > 1 ==> s[1..][|s| - 2] == s[|s| - 1];
      } else {
        var n := RunLength(s);
        RunsKeepTokens(s[..n], s[n..], true);
        assert s == s[..n] + s[n..];
        if n < |s| {
          RunsAreJoined(s[n..][1..]);
          AfterRun(s, n);
        }
      }
    }
  }

  lemma AfterRun(s: string, n: nat)
    requires 0 < n == RunLength(s) < |s|
    requires var rest := s[n..][1..]; ReplaceRuns(rest, Separator, true) == Join(Tokens(rest), '-') + Tail(rest)
    ensures s[..n] + ReplaceRuns(s[n..], Separator, false) == Join(Tokens(s), '-') + Tail(s)
  {
    var run, rest := s[..n], s[n..][1..];
    TokensAfterRun(s, n);
    JoinCons(run, Tokens(rest));
    TailAfterRun(s, n);
    if Tokens(rest) != [] {
      Regroup(run, Join(Tokens(rest), '-'), Tail(rest));
    }
  }

  lemma LastAfterRun(s: string, n: nat)
    requires n < |s|
    ensures var rest := s[n..][1..]; s[|s| - 1] == if rest == "" then s[n] else rest[|rest| - 1]
  {
  }

  /** Past a token run the trailing hyphen is that of the rest, or the run's own when no token follows it. */
  lemma TailAfterRun(s: string, n: nat)
    requires 0 < n == RunLength(s) < |s|
    ensures var rest := s[n..][1..]; Tail(s) == if Tokens(rest) == [] then "-" else Tail(rest)
  {
    TokensAfterRun(s, n);
    LastAfterRun(s, n);
    TailFromRest(s, s[n..][1..], s[n]);
  }

  lemma TailFromRest(s: string, rest: string, c: char)
    requires s != "" && Tokens(s) != [] && !IsToken(c)
    requires s[|s| - 1] == if rest == "" then c else rest[|rest| - 1]
    ensures Tail(s) == if Tokens(rest) == [] then "-" else Tail(rest)
  {
    NoTokensLeft(rest);
  }

  lemma TokensAfterRun(s: string, n: nat)
    requires 0 < n == RunLength(s) < |s|
    ensures var rest := s[n..][1..];
            && Tokens(s) == [s[..n]] + Tokens(rest)
            && ReplaceRuns(s[n..], Separator, false) == "-" + ReplaceRuns(rest, Separator, true)
  {
    assert IsToken(s[0]);
  }

  lemma Regroup(a: string, b: string, c: string)
    ensures a + ("-" + (b + c)) == a + "-" + b + c
  {
  }

  lemma JoinCons(t: string, ts: seq<string>)
    ensures Join([t] + ts, '-') == if ts == [] then t else t + "-" + Join(ts, '-')
  {
    assert ([t] + ts)[1..] == ts;
  }

  lemma {:induction false} NoTokensLeft(s: string)
    ensures Tokens(s) == [] <==> NoTokens(s)
  {
    if s != "" && !IsToken(s[0]) {
      NoTokensLeft(s[1..]);
      assert NoTokens(s[1..]) ==> forall i | 1 <= i < |s| :: s[i] == s[1..][i - 1];
    }
  }

  /** A join of tokens neither starts nor ends with a hyphen, and holds no two in a row. */
  ghost predicate Hyphenated(s: string) {
    && (forall i | 0 <= i < |s| :: IsKeyChar(s[i]))
    && (s != "" ==> s[0] != '-' && s[|s| - 1] != '-')
    && NoDouble(s)
  }

  ghost predicate NoDouble(s: string) {
    forall i | 0 <= i < |s| - 1 :: s[i] == '-' ==> s[i + 1] != '-'
  }

  lemma {:induction false} JoinHyphenated(ts: seq<string>)
    requires forall t | t in ts :: t != "" && AllTokens(t)
    ensures Hyphenated(Join(ts, '-')) && (Join(ts, '-') == "" <==> ts == [])
  {
    if |ts| == 1 {
      assert ts[0] in ts;
    } else if |ts| > 1 {
      JoinHyphenated(ts[1..]);
      assert ts[0] in ts;
      HyphenJoin(ts[0], Join(ts[1..], '-'));
    }
  }

  lemma HyphenJoin(t: string, s: string)
    requires t != "" && AllTokens(t) && Hyphenated(s) && s != ""
    ensures Hyphenated(t + "-" + s)
  {
    var j := t + "-" + s;
    forall i | 0 <= i < |j| ensures IsKeyChar(j[i]) && (i < |j| - 1 && j[i] == '-' ==> j[i + 1] != '-') {
      if i < |t| {
        assert j[i] == t[i];
      } else if i > |t| {
        assert j[i] == s[i - |t| - 1];
        assert i < |j| - 1 ==> j[i + 1] == s[i - |t|];
      } else {
        assert j[i + 1] == s[0];
      }
    }
  }

  lemma StripFirstOfRuns(s: string)
    ensures StripFirst(ReplaceRuns(s, Separator, false)) == ReplaceRuns(s, Separator, true)
  {
    if s != "" && !IsToken(s[0]) {
      assert ("-" + ReplaceRuns(s[1..], Separator, true))[1..] == ReplaceRuns(s[1..], Separator, true);
    }
  }

  lemma StripEndsOfRuns(s: string)
    ensures StripEnds(ReplaceRuns(s, Separator, false)) == Join(Tokens(s), '-')
  {
    StripFirstOfRuns(s);
    RunsAreJoined(s);
    JoinHyphenated(Tokens(s));
    StripTail(Join(Tokens(s), '-'), Tail(s));
  }

  lemma StripTail(j: string, tail: string)
    requires Hyphenated(j) && tail in {"", "-"} && (tail == "-" ==> j != "")
    ensures StripLast(j + tail) == j
  {
    assert tail == "" ==> j + tail == j;
    assert tail == "-" ==> (j + tail)[..|j|] == j;
  }

  // ------------------------------------------------------------ trim is redundant

  lemma {:induction false} TokensSkipFront(a: string, s: string)
    requires NoTokens(a)
    ensures Tokens(a + s) == Tokens(s)
  {
    if a == "" {
      assert a + s == s;
    } else {
      assert (a + s)[1..] == a[1..] + s;
      TokensSkipFront(a[1..], s);
    }
  }

  lemma {:induction false} TokensSkipBack(s: string, b: string)
    requires NoTokens(b)
    ensures Tokens(s + b) == Tokens(s)
    decreases |s|
  {
    if s == "" {
      assert s + b == b;
      NoTokensLeft(b);
    } else if !IsToken(s[0]) {
      assert (s + b)[1..] == s[1..] + b;
      TokensSkipBack(s[1..], b);
    } else {
      var n := RunLength(s);
      RunLengthStops(s, b);
      assert (s + b)[..n] == s[..n] && (s + b)[n..] == s[n..] + b;
      TokensSkipBack(s[n..], b);
    }
  }

  lemma {:induction false} RunLengthStops(s: string, b: string)
    requires NoTokens(b)
    ensures RunLength(s + b) == RunLength(s)
  {
    if s == "" {
      assert s + b == b;
    } else if IsToken(s[0]) {
      assert (s + b)[1..] == s[1..] + b;
      RunLengthStops(s[1..], b);
    }
  }

  lemma {:induction false} LowerConcat(a: string, b: string, lower: char -> string)
    ensures Lower(a + b, lower) == Lower(a, lower) + Lower(b, lower)
  {
    if a == "" {
      assert a + b == b;
    } else {
      assert (a + b)[1..] == a[1..] + b;
      LowerConcat(a[1..], b, lower);
      ConcatAssoc(lower(a[0]), Lower(a[1..], lower), Lower(b, lower));
    }
  }

  lemma {:induction false} LowerFixed(s: string, lower: char -> string)
    requires KeepsAscii(lower) && forall i | 0 <= i < |s| :: IsKeyChar(s[i]) || IsSpace(s[i])
    ensures Lower(s, lower) == s
  {
    if s != "" {
      LowerFixed(s[1..], lower);
      assert s == [s[0]] + s[1..];
    }
  }

  lemma TrimRedundant(value: string, lower: char -> string)
    requires KeepsAscii(lower)
    ensures Tokens(Lower(Trim(value), lower)) == Tokens(Lower(value, lower))
  {
    var left, right := TrimSplits(value);
    LowerBetween(left, Trim(value), right, lower);
    TokensSkipBack(left + Lower(Trim(value), lower), right);
    TokensSkipFront(left, Lower(Trim(value), lower));
  }

  lemma LowerBetween(left: string, s: string, right: string, lower: char -> string)
    requires KeepsAscii(lower) && AllSpace(left) && AllSpace(right)
    ensures Lower(left + s + right, lower) == left + Lower(s, lower) + right
  {
    LowerConcat(left + s, right, lower);
    LowerConcat(left, s, lower);
    LowerFixed(left, lower);
    LowerFixed(right, lower);
  }

  // ------------------------------------------------------------------ theorems

  /**
   The key is the first hundred characters of the lower-cased text's token runs
   joined by single hyphens; the initial trim changes nothing.
   */
  lemma KeyIsJoinedTokens(value: string, lower: char -> string)
    requires KeepsAscii(lower)
    ensures StableKey(value, lower) == Cut(Join(Tokens(Lower(value, lower)), '-'))
  {
    var lowered := Lower(Trim(value), lower);
    ReplaceThenCollapse(lowered, false, false);
    StripEndsOfRuns(lowered);
    TrimRedundant(value, lower);
  }

  /** Lower-casing a single character is what `lower` makes of it; with `LowerConcat` this fixes it on every text. */
  lemma LowerOne(c: char, lower: char -> string)
    ensures Lower([c], lower) == lower(c)
  {
    assert [c][1..] == "";
    assert lower(c) + "" == lower(c);
  }

  lemma {:induction false} LowerAlike(v: string, w: string, lower: char -> string)
    requires |v| == |w| && forall i | 0 <= i < |v| :: lower(v[i]) == lower(w[i])
    ensures Lower(v, lower) == Lower(w, lower)
  {
    if v != "" {
      LowerAlike(v[1..], w[1..], lower);
    }
  }

  /** Texts that differ only in characters lowered alike have the same key. */
  lemma KeyIgnoresCase(v: string, w: string, lower: char -> string)
    requires KeepsAscii(lower)
    requires |v| == |w| && forall i | 0 <= i < |v| :: lower(v[i]) == lower(w[i])
    ensures StableKey(v, lower) == StableKey(w, lower)
  {
    LowerAlike(v, w, lower);
    KeyIsJoinedTokens(v, lower);
    KeyIsJoinedTokens(w, lower);
  }

  /** The characters a key may hold. */
  lemma KeyAlphabet(c: char)
    ensures IsKeyChar(c) <==> c in "abcdefghijklmnopqrstuvwxyz0123456789:_-"
    ensures IsToken(c) <==> IsKeyChar(c) && c != '-'
  {
  }

  /** A key in final form. */
  ghost predicate IsKey(k: string) {
    |k| <= MAX_LENGTH && Hyphenated(k)
  }

  /** Every key has the final form, or is a full hundred characters ending in the cut-off's hyphen. */
  lemma KeyShape(value: string, lower: char -> string)
    requires KeepsAscii(lower)
    ensures var k := StableKey(value, lower);
            IsKey(k) || (|k| == MAX_LENGTH && k[MAX_LENGTH - 1] == '-' && IsKey(k[..MAX_LENGTH - 1]))
  {
    KeyIsJoinedTokens(value, lower);
    var j := Join(Tokens(Lower(value, lower)), '-');
    JoinHyphenated(Tokens(Lower(value, lower)));
    CutHyphenated(j);
  }

  lemma CutHyphenated(j: string)
    requires Hyphenated(j)
    ensures var k := Cut(j);
            IsKey(k) || (|k| == MAX_LENGTH && k[MAX_LENGTH - 1] == '-' && IsKey(k[..MAX_LENGTH - 1]))
  {
    if |j| > MAX_LENGTH {
      var k := j[..MAX_LENGTH];
      assert k[MAX_LENGTH - 2] == '-' ==> k[MAX_LENGTH - 1] != '-';
    }
  }

  /** On text of key characters with no leading and no double hyphen only the last hyphen can go. */
  lemma KeyOfKeyText(k: string, lower: char -> string)
    requires KeepsAscii(lower)
    requires (forall i | 0 <= i < |k| :: IsKeyChar(k[i])) && NoDouble(k)
    requires k != "" ==> k[0] != '-'
    ensures StableKey(k, lower) == Cut(StripLast(k))
  {
    assert Trim(k) == k;
    LowerFixed(k, lower);
    ReplaceThenCollapse(k, false, false);
    RunsOfKeyText(k, false);
  }

  lemma {:induction false} RunsOfKeyText(k: string, b: bool)
    requires (forall i | 0 <= i < |k| :: IsKeyChar(k[i])) && NoDouble(k)
    requires b && k != "" ==> k[0] != '-'
    ensures ReplaceRuns(k, Separator, b) == k
  {
    if k != "" {
      assert |k| > 1 ==> k[1..][0] == k[1];
      forall i | 0 <= i < |k[1..]| - 1 ensures k[1..][i] == '-' ==> k[1..][i + 1] != '-' {
        assert k[1..][i] == k[i + 1] && k[1..][i + 1] == k[i + 2];
      }
      RunsOfKeyText(k[1..], k[0] == '-');
      assert k == [k[0]] + k[1..];
    }
  }

  /** The texts the normaliser leaves alone are exactly the keys in final form. */
  lemma FixedPointIff(k: string, lower: char -> string)
    requires KeepsAscii(lower)
    ensures StableKey(k, lower) == k <==> IsKey(k)
  {
    if IsKey(k) {
      KeyOfKeyText(k, lower);
    } else if StableKey(k, lower) == k {
      KeyShape(k, lower);
      ExtendNoDouble(k);
      KeyOfKeyText(k, lower);
      assert false;
    }
  }

  lemma ExtendNoDouble(k: string)
    requires |k| == MAX_LENGTH && k[MAX_LENGTH - 1] == '-' && IsKey(k[..MAX_LENGTH - 1])
    ensures (forall i | 0 <= i < |k| :: IsKeyChar(k[i])) && NoDouble(k) && k[0] != '-'
  {
    var front := k[..MAX_LENGTH - 1];
    forall i | 0 <= i < |k| ensures IsKeyChar(k[i]) && (i < |k| - 1 && k[i] == '-' ==> k[i + 1] != '-') {
      if i < |front| {
        assert k[i] == front[i];
        assert i + 1 < |front| ==> k[i + 1] == front[i + 1];
      }
    }
    assert k[0] == front[0];
  }

  /** Normalising a key again changes it exactly when the cut left a hyphen last; a third time never does. */
  lemma KeyConverges(value: string, lower: char -> string)
    requires KeepsAscii(lower)
    ensures var once := StableKey(value, lower);
            var twice := StableKey(once, lower);
            && (twice == once <==> once == "" || once[|once| - 1] != '-')
            && StableKey(twice, lower) == twice
  {
    var once := StableKey(value, lower);
    KeyShape(value, lower);
    FixedPointIff(once, lower);
    if !IsKey(once) {
      ExtendNoDouble(once);
      KeyOfKeyText(once, lower);
      FixedPointIff(once[..MAX_LENGTH - 1], lower);
    }
  }

  /**
   Told from the typed text: a key is a fixed point unless the hundredth
   character of the joined token runs is a hyphen that the cut leaves last.
   */
  lemma KeyIdempotentIff(value: string, lower: char -> string)
    requires KeepsAscii(lower)
    ensures var once := StableKey(value, lower);
            var joined := Join(Tokens(Lower(value, lower)), '-');
            StableKey(once, lower) == once <==> (|joined| <= MAX_LENGTH || joined[MAX_LENGTH - 1] != '-')
  {
    KeyIsJoinedTokens(value, lower);
    KeyConverges(value, lower);
    JoinHyphenated(Tokens(Lower(value, lower)));
    CutEndsIff(Join(Tokens(Lower(value, lower)), '-'), StableKey(value, lower));
  }

  lemma CutEndsIff(joined: string, key: string)
    requires Hyphenated(joined) && key == Cut(joined)
    ensures (key == "" || key[|key| - 1] != '-') <==> |joined| <= MAX_LENGTH || joined[MAX_LENGTH - 1] != '-'
  {
  }

  /** A key is empty exactly when the lower-cased text has no token character. */
  lemma KeyEmptyIff(value: string, lower: char -> string)
    requires KeepsAscii(lower)
    ensures StableKey(value, lower) == "" <==> NoTokens(Lower(value, lower))
  {
    var lowered := Lower(value, lower);
    KeyIsJoinedTokens(value, lower);
    JoinHyphenated(Tokens(lowered));
    NoTokensLeft(lowered);
    CutEmpty(Join(Tokens(lowered), '-'));
  }

  lemma CutEmpty(s: string)
    ensures Cut(s) == "" <==> s == ""
  {
  }

  /** Ninety-nine letters, a hyphen and a letter: the key is not yet a fixed point. */
  lemma KeyNotIdempotentExample(lower: char -> string)
    requires KeepsAscii(lower)
    ensures var once := StableKey(seq(99, _ => 'a') + "-b", lower); StableKey(once, lower) != once
  {
    var a := seq(99, _ => 'a');
    ExampleText(a, a + "-b");
    KeyOfKeyText(a + "-b", lower);
    KeyConverges(a + "-b", lower);
  }

  lemma ExampleText(a: string, value: string)
    requires |a| == 99 && (forall i | 0 <= i < 99 :: a[i] == 'a') && value == a + "-b"
    ensures (forall i | 0 <= i < |value| :: IsKeyChar(value[i])) && NoDouble(value) && value[0] != '-'
    ensures Cut(StripLast(value)) != "" && Cut(StripLast(value))[|Cut(StripLast(value))| - 1] == '-'
  {
  }

  /** ASCII lower-casing meets the assumption. */
  lemma AsciiLowering()
    ensures KeepsAscii(c => if 'A' <= c <= 'Z' then [(c as int + 32) as char] else [c])
  {
  }
}
