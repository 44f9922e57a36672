/** Bulk redeem-code entry: pasted text to the list of codes that is submitted. */
module RedeemCodes {
  import opened Wrappers
  import opened Text

  // -------------------------------------------------------------- the stages

  /** `split(/\r?\n/)`. */
  function Lines(raw: string): (lines: seq<string>)
    ensures lines != []
    decreases |raw|
  {
    if raw == "" then [""]
    else if raw[0] == '\n' then [""] + Lines(raw[1..])
    else if |raw| > 1 && raw[..2] == "\r\n" then [""] + Lines(raw[2..])
    else Prepend(raw[0], Lines(raw[1..]))
  }

  /** `map(trim)`. */
  function TrimAll(lines: seq<string>): (r: seq<string>)
    ensures |r| == |lines| && forall i | 0 <= i < |r| :: r[i] == Trim(lines[i])
  {
    seq(|lines|, i requires 0 <= i < |lines| => Trim(lines[i]))
  }

  /** `[...new Set(codes)]`: each value where it first occurs. */
  function Unique(codes: seq<string>): seq<string> {
    if codes == [] then []
    else
      var seen := Unique(codes[..|codes| - 1]);
      var code := codes[|codes| - 1];
      if code in seen then seen else seen + [code]
  }

  function Codes(raw: string): seq<string> {
    Unique(NonBlank(TrimAll(Lines(raw))))
  }

  datatype InsertError = NoAsset | NoCodes

  /** The codes that are posted, or the error shown instead. */
  function Insert(raw: string, assetKey: string): Result<seq<string>, InsertError> {
    var codes := Codes(raw);
    if assetKey == "" then Failure(NoAsset)
    else if codes == [] then Failure(NoCodes)
    else Success(codes)
  }

  // ---------------------------------------------------- lines by line feed alone

  ghost predicate SameUpToCr(xs: seq<string>, ys: seq<string>) {
    |xs| == |ys| && forall i | 0 <= i < |xs| :: ys[i] == xs[i] || ys[i] == xs[i] + "\r"
  }

  lemma SameUpToCrCons(x: string, y: string, xs: seq<string>, ys: seq<string>)
    requires (y == x || y == x + "\r") && SameUpToCr(xs, ys)
    ensures SameUpToCr([x] + xs, [y] + ys)
  {
  }

  lemma SameUpToCrPrepend(c: char, xs: seq<string>, ys: seq<string>)
    requires SameUpToCr(xs, ys) && xs != [] && ys != []
    ensures SameUpToCr(Prepend(c, xs), Prepend(c, ys))
  {
    assert [c] + (xs[0] + "\r") == [c] + xs[0] + "\r";
    SameUpToCrCons([c] + xs[0], [c] + ys[0], xs[1..], ys[1..]);
  }

  lemma CrLine(rest: string)
    ensures Split("\r\n" + rest, '\n') == ["\r"] + Split(rest, '\n')
  {
    var text, tail := "\r\n" + rest, "\n" + rest;
    assert text[1..] == tail && tail[1..] == rest;
    assert Split(tail, '\n') == [""] + Split(rest, '\n');
    assert ['\r'] + "" == "\r";
  }

  lemma {:induction false} LinesAreSplit(raw: string)
    ensures SameUpToCr(Lines(raw), Split(raw, '\n'))
    decreases |raw|
  {
    if raw == "" {
    } else if raw[0] == '\n' {
      LinesAreSplit(raw[1..]);
      SameUpToCrCons("", "", Lines(raw[1..]), Split(raw[1..], '\n'));
    } else if |raw| > 1 && raw[..2] == "\r\n" {
      assert raw == "\r\n" + raw[2..];
      CrLine(raw[2..]);
      LinesAreSplit(raw[2..]);
      SameUpToCrCons("", "\r", Lines(raw[2..]), Split(raw[2..], '\n'));
    } else {
      LinesAreSplit(raw[1..]);
      SameUpToCrPrepend(raw[0], Lines(raw[1..]), Split(raw[1..], '\n'));
    }
  }

  lemma TrimAllIgnoresCr(xs: seq<string>, ys: seq<string>)
    requires SameUpToCr(xs, ys)
    ensures TrimAll(xs) == TrimAll(ys)
  {
    forall i | 0 <= i < |xs| ensures Trim(xs[i]) == Trim(ys[i]) {
      TrimAbsorbsRight(xs[i], "\r");
    }
  }

  /** The trimmed lines of the text. */
  function TrimmedLines(raw: string): seq<string> {
    TrimAll(Split(raw, '\n'))
  }

  lemma CodesOfTrimmedLines(raw: string)
    ensures Codes(raw) == Unique(NonBlank(TrimmedLines(raw)))
  {
    LinesAreSplit(raw);
    TrimAllIgnoresCr(Lines(raw), Split(raw, '\n'));
  }

  /** Rewriting every line feed as carriage return and line feed. */
  function ToCrlf(raw: string): string {
    if raw == "" then ""
    else if raw[0] == '\n' then "\r\n" + ToCrlf(raw[1..])
    else [raw[0]] + ToCrlf(raw[1..])
  }

  lemma {:induction false} CrlfLines(raw: string)
    ensures SameUpToCr(Split(raw, '\n'), Split(ToCrlf(raw), '\n'))
  {
    if raw != "" {
      CrlfLines(raw[1..]);
      var rest := ToCrlf(raw[1..]);
      if raw[0] == '\n' {
        CrLine(rest);
        SameUpToCrCons("", "\r", Split(raw[1..], '\n'), Split(rest, '\n'));
      } else {
        assert ([raw[0]] + rest)[1..] == rest;
        SameUpToCrPrepend(raw[0], Split(raw[1..], '\n'), Split(rest, '\n'));
      }
    }
  }

  /** Line endings do not matter. */
  lemma CodesIgnoreLineEndings(raw: string)
    ensures Codes(ToCrlf(raw)) == Codes(raw)
  {
    CrlfLines(raw);
    TrimAllIgnoresCr(Split(raw, '\n'), Split(ToCrlf(raw), '\n'));
    CodesOfTrimmedLines(raw);
    CodesOfTrimmedLines(ToCrlf(raw));
  }

  // --------------------------------------------------------------- what the codes are

  ghost predicate Distinct(xs: seq<string>) {
    forall i, j | 0 <= i < j < |xs| :: xs[i] != xs[j]
  }

  /** In xs, a occurs, and no b does before it. */
  predicate Precedes(xs: seq<string>, a: string, b: string) {
    xs != [] && xs[0] != b && (xs[0] == a || Precedes(xs[1..], a, b))
  }

  ghost predicate InOrderOf(us: seq<string>, xs: seq<string>) {
    forall i, j | 0 <= i < j < |us| :: Precedes(xs, us[i], us[j])
  }

  lemma {:induction false} NonBlankMembers(xs: seq<string>)
    ensures forall c :: c in NonBlank(xs) <==> c != "" && c in xs
  {
    if xs != [] {
      NonBlankMembers(xs[1..]);
      assert xs == [xs[0]] + xs[1..];
    }
  }

  lemma {:induction false} NonBlankOrder(xs: seq<string>, a: string, b: string)
    requires b != "" && Precedes(NonBlank(xs), a, b)
    ensures Precedes(xs, a, b)
  {
    if xs[0] == "" {
      NonBlankOrder(xs[1..], a, b);
    } else if xs[0] != a {
      assert NonBlank(xs)[1..] == NonBlank(xs[1..]);
      NonBlankOrder(xs[1..], a, b);
    }
  }

  lemma {:induction false} PrecedesExtends(xs: seq<string>, y: string, a: string, b: string)
    requires Precedes(xs, a, b)
    ensures Precedes(xs + [y], a, b)
  {
    if xs[0] != a {
      assert (xs + [y])[1..] == xs[1..] + [y];
      PrecedesExtends(xs[1..], y, a, b);
    }
  }

  lemma {:induction false} PrecedesLast(xs: seq<string>, y: string, a: string)
    requires a in xs && y !in xs
    ensures Precedes(xs + [y], a, y)
  {
    if xs[0] != a {
      assert (xs + [y])[1..] == xs[1..] + [y];
      PrecedesLast(xs[1..], y, a);
    }
  }

  lemma {:induction false} UniqueSpec(xs: seq<string>)
    ensures Distinct(Unique(xs)) && InOrderOf(Unique(xs), xs)
    ensures forall c :: c in Unique(xs) <==> c in xs
  {
    if xs != [] {
      var n := |xs| - 1;
      var front, last, seen := xs[..n], xs[n], Unique(xs[..n]);
      UniqueSpec(front);
      assert xs == front + [last];
      forall i, j | 0 <= i < j < |Unique(xs)| ensures Precedes(xs, Unique(xs)[i], Unique(xs)[j]) {
        if j < |seen| {
          PrecedesExtends(front, last, seen[i], seen[j]);
        } else {
          PrecedesLast(front, last, seen[i]);
        }
      }
    }
  }

  /**
   The submitted codes are pairwise distinct, stand in order of first occurrence,
   and are exactly the trimmed lines that are not blank.
   */
  lemma CodesSpec(raw: string)
    ensures Distinct(Codes(raw)) && InOrderOf(Codes(raw), TrimmedLines(raw))
    ensures forall c :: c in Codes(raw) <==> c != "" && c in TrimmedLines(raw)
  {
    var lines := TrimmedLines(raw);
    CodesOfTrimmedLines(raw);
    NonBlankMembers(lines);
    UniqueSpec(NonBlank(lines));
    forall i, j | 0 <= i < j < |Codes(raw)| ensures Precedes(lines, Codes(raw)[i], Codes(raw)[j]) {
      assert Codes(raw)[j] in Codes(raw);
      NonBlankOrder(lines, Codes(raw)[i], Codes(raw)[j]);
    }
  }

  /** A request is made exactly when an asset is chosen and some line is not blank. */
  lemma InsertAcceptsIff(raw: string, assetKey: string)
    ensures Insert(raw, assetKey).Success? <==>
            assetKey != "" && exists i | 0 <= i < |Split(raw, '\n')| :: Trim(Split(raw, '\n')[i]) != ""
    ensures Insert(raw, assetKey).Failure? ==>
              Insert(raw, assetKey).error == if assetKey == "" then NoAsset else NoCodes
  {
    CodesSpec(raw);
    var lines := TrimmedLines(raw);
    if i :| 0 <= i < |Split(raw, '\n')| && Trim(Split(raw, '\n')[i]) != "" {
      assert lines[i] in lines;
      assert lines[i] in Codes(raw);
    }
    if Codes(raw) != [] {
      assert Codes(raw)[0] in Codes(raw);
      var i :| 0 <= i < |lines| && lines[i] == Codes(raw)[0];
      assert Trim(Split(raw, '\n')[i]) != "";
    }
  }

  /** What is posted are the distinct trimmed lines that are not blank, in order of first occurrence. */
  lemma InsertPosts(raw: string, assetKey: string)
    requires Insert(raw, assetKey).Success?
    ensures var codes := Insert(raw, assetKey).value;
            && Distinct(codes) && InOrderOf(codes, TrimmedLines(raw))
            && forall c :: c in codes <==> c != "" && c in TrimmedLines(raw)
  {
    CodesSpec(raw);
  }

  // ------------------------------------------------------------------ round trip

  ghost predicate ValidCodes(codes: seq<string>) {
    && Distinct(codes)
    && forall i | 0 <= i < |codes| :: codes[i] != "" && Trimmed(codes[i]) && '\n' !in codes[i]
  }

  lemma {:induction false} NonBlankKeeps(xs: seq<string>)
    requires forall i | 0 <= i < |xs| :: xs[i] != ""
    ensures NonBlank(xs) == xs
  {
    if xs != [] {
      NonBlankKeeps(xs[1..]);
      assert xs == [xs[0]] + xs[1..];
    }
  }

  lemma {:induction false} UniqueKeeps(xs: seq<string>)
    requires Distinct(xs)
    ensures Unique(xs) == xs
  {
    if xs != [] {
      var n := |xs| - 1;
      UniqueKeeps(xs[..n]);
      assert xs == xs[..n] + [xs[n]];
    }
  }

  lemma CodeValid(raw: string, c: string)
    requires c in TrimmedLines(raw)
    ensures Trimmed(c) && '\n' !in c
  {
    var i :| 0 <= i < |TrimmedLines(raw)| && TrimmedLines(raw)[i] == c;
    var line := Split(raw, '\n')[i];
    var left, right := TrimSplits(line);
    assert line in Split(raw, '\n');
  }

  lemma CodesValid(raw: string)
    ensures ValidCodes(Codes(raw))
  {
    CodesSpec(raw);
    forall j | 0 <= j < |Codes(raw)| ensures var c := Codes(raw)[j]; c != "" && Trimmed(c) && '\n' !in c {
      assert Codes(raw)[j] in Codes(raw);
      CodeValid(raw, Codes(raw)[j]);
    }
  }

  /** Pasting a list back gives the same list exactly when it is a valid list of codes. */
  lemma CodesRoundTripIff(codes: seq<string>)
    ensures Codes(Join(codes, '\n')) == codes <==> ValidCodes(codes)
  {
    CodesValid(Join(codes, '\n'));
    if ValidCodes(codes) {
      ValidCodesKept(codes);
    }
  }

  lemma ValidCodesKept(codes: seq<string>)
    requires ValidCodes(codes)
    ensures Codes(Join(codes, '\n')) == codes
  {
    if codes == [] {
      EmptyTextHasNoCodes();
    } else {
      CodesOfTrimmedLines(Join(codes, '\n'));
      TrimmedLinesOfJoin(codes);
      NonBlankKeeps(codes);
      UniqueKeeps(codes);
    }
  }

  lemma EmptyTextHasNoCodes()
    ensures Codes("") == []
  {
    assert Lines("") == [""];
    assert TrimAll([""]) == [""];
    assert NonBlank([""]) == [];
  }

  lemma TrimmedLinesOfJoin(codes: seq<string>)
    requires ValidCodes(codes) && codes != []
    ensures TrimmedLines(Join(codes, '\n')) == codes
  {
    SplitOfJoin(codes, '\n');
    TrimAllKeeps(codes);
  }

  lemma TrimAllKeeps(codes: seq<string>)
    requires forall i | 0 <= i < |codes| :: Trimmed(codes[i])
    ensures TrimAll(codes) == codes
  {
  }

  /** In particular, parsing is stable: the submitted codes, pasted again, give themselves. */
  lemma CodesStable(raw: string)
    ensures Codes(Join(Codes(raw), '\n')) == Codes(raw)
  {
    CodesValid(raw);
    CodesRoundTripIff(Codes(raw));
  }
}
