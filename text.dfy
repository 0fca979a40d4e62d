/**
 * The parts of `java.lang.String`, `Integer.parseInt`, `String.format("%d")` and
 * `Files.readAllLines` that the maze file format relies on, over strings as character
 * sequences.
 */
module JavaText {
  import opened Wrappers
  import opened JavaInt

  // ----- split -----

  /** The pieces of `s` between occurrences of `sep`, empty pieces included. */
  function Pieces(s: string, sep: char): (r: seq<string>)
    ensures |r| >= 1
    decreases |s|
  {
    if s == [] then [""]
    else
      var rest := Pieces(s[1..], sep);
      if s[0] == sep then [""] + rest
      else [[s[0]] + rest[0]] + rest[1..]
  }

  /** The pieces put back together with `sep` between neighbours. */
  function Join(pieces: seq<string>, sep: char): string
    requires |pieces| >= 1
  {
    if |pieces| == 1 then pieces[0]
    else pieces[0] + [sep] + Join(pieces[1..], sep)
  }

  /** Joining the pieces of a string gives the string back. */
  lemma {:induction false} JoinPieces(s: string, sep: char)
    ensures Join(Pieces(s, sep), sep) == s
    decreases |s|
  {
    if s != [] {
      JoinPieces(s[1..], sep);
      var rest := Pieces(s[1..], sep);
      if s[0] != sep {
        if |rest| == 1 {
          assert Join(rest, sep) == rest[0];
        } else {
          assert Join(rest, sep) == rest[0] + [sep] + Join(rest[1..], sep);
        }
      }
    }
  }

  /** Cutting a joined list of pieces without separators in them gives the pieces back. */
  lemma {:induction false} PiecesJoin(pieces: seq<string>, sep: char)
    requires |pieces| >= 1 && forall i | 0 <= i < |pieces| :: sep !in pieces[i]
    ensures Pieces(Join(pieces, sep), sep) == pieces
    decreases |pieces|
  {
    var first := pieces[0];
    if |pieces| == 1 {
      PiecesFront(first, [], sep);
      assert first + [] == first && first + "" == first;
    } else {
      var rest := Join(pieces[1..], sep);
      PiecesJoin(pieces[1..], sep);
      assert Join(pieces, sep) == first + ([sep] + rest);
      PiecesFront(first, [sep] + rest, sep);
      assert ([sep] + rest)[1..] == rest;
      assert Pieces([sep] + rest, sep) == [""] + pieces[1..];
      assert first + "" == first;
    }
  }

  /** A front without separators joins the first piece of what follows it. */
  lemma {:induction false} PiecesFront(a: string, t: string, sep: char)
    requires sep !in a
    ensures Pieces(a + t, sep) == [a + Pieces(t, sep)[0]] + Pieces(t, sep)[1..]
    decreases |a|
  {
    if a != [] {
      assert sep !in a[1..] by {
        forall k | 0 <= k < |a| - 1 ensures a[1..][k] != sep {
          assert a[1..][k] == a[k + 1] && a[k + 1] in a;
        }
      }
      PiecesFront(a[1..], t, sep);
      assert (a + t)[1..] == a[1..] + t;
      assert a[0] in a;
      assert [a[0]] + (a[1..] + Pieces(t, sep)[0]) == a + Pieces(t, sep)[0];
    } else {
      assert a + t == t && a + Pieces(t, sep)[0] == Pieces(t, sep)[0];
    }
  }

  /** The pieces with the empty ones at the end removed. */
  function DropTrailingEmpty(pieces: seq<string>): (r: seq<string>)
    ensures |r| <= |pieces| && r == pieces[..|r|]
    ensures r == [] || r[|r| - 1] != ""
  {
    if pieces == [] then []
    else if pieces[|pieces| - 1] == "" then DropTrailingEmpty(pieces[..|pieces| - 1])
    else pieces
  }

  /**
   * `s.split(String.valueOf(sep))`: a string without the separator (the only one with a
   * single piece) is its own single piece, even when empty; otherwise all pieces, with the
   * empty ones at the end dropped (so "a,b," has two pieces and "," none), while empty
   * pieces at the front or in the middle are kept.
   */
  function Split(s: string, sep: char): (r: seq<string>)
    ensures sep !in s ==> r == [s]
    ensures sep in s ==> r == [] || r[|r| - 1] != ""
  {
    var pieces := Pieces(s, sep);
    PiecesSingle(s, sep);
    JoinPieces(s, sep);
    if |pieces| == 1 then pieces else DropTrailingEmpty(pieces)
  }

  /** A string is a single piece exactly when the separator does not occur in it. */
  lemma {:induction false} PiecesSingle(s: string, sep: char)
    ensures |Pieces(s, sep)| == 1 <==> sep !in s
    decreases |s|
  {
    if s != [] {
      PiecesSingle(s[1..], sep);
      assert s == [s[0]] + s[1..];
    }
  }

  /** No piece holds the separator. */
  lemma {:induction false} PiecesNoSeparator(s: string, sep: char)
    ensures forall i | 0 <= i < |Pieces(s, sep)| :: sep !in Pieces(s, sep)[i]
    decreases |s|
  {
    if s != [] {
      PiecesNoSeparator(s[1..], sep);
      var rest := Pieces(s[1..], sep);
      if s[0] != sep {
        assert sep !in [s[0]] + rest[0];
      }
    }
  }

  /** Only empty pieces are dropped from the end. */
  lemma {:induction false} DropTrailingEmptyDropsEmpty(pieces: seq<string>)
    ensures forall i | |DropTrailingEmpty(pieces)| <= i < |pieces| :: pieces[i] == ""
    decreases |pieces|
  {
    if pieces != [] && pieces[|pieces| - 1] == "" {
      DropTrailingEmptyDropsEmpty(pieces[..|pieces| - 1]);
    }
  }

  /** No part `split` returns holds the separator. */
  lemma SplitNoSeparator(s: string, sep: char)
    ensures forall i | 0 <= i < |Split(s, sep)| :: sep !in Split(s, sep)[i]
  {
    PiecesNoSeparator(s, sep);
    var pieces := Pieces(s, sep);
    forall i | 0 <= i < |Split(s, sep)|
      ensures sep !in Split(s, sep)[i]
    {
      assert Split(s, sep)[i] == pieces[i];
    }
  }

  /**
   * Splitting pieces joined by the separator gives them back when none holds the separator
   * and the last one is not empty, or there is only one.
   */
  lemma SplitJoin(pieces: seq<string>, sep: char)
    requires |pieces| >= 1 && forall i | 0 <= i < |pieces| :: sep !in pieces[i]
    requires |pieces| == 1 || pieces[|pieces| - 1] != ""
    ensures Split(Join(pieces, sep), sep) == pieces
  {
    var s := Join(pieces, sep);
    PiecesJoin(pieces, sep);
    if |pieces| == 1 {
      assert s == pieces[0];
    } else {
      assert s == pieces[0] + [sep] + Join(pieces[1..], sep);
      assert s[|pieces[0]|] == sep;
    }
  }

  // ----- trim -----

  /** The characters `trim` removes: every code point up to and including the space. */
  predicate Blank(c: char)
  {
    c <= ' '
  }

  function TrimStart(s: string): (r: string)
    ensures r == [] || !Blank(r[0])
  {
    if s != [] && Blank(s[0]) then TrimStart(s[1..]) else s
  }

  function TrimEnd(s: string): (r: string)
    ensures r == [] || !Blank(r[|r| - 1])
    ensures |r| <= |s| && (r != [] ==> r[0] == s[0])
  {
    if s != [] && Blank(s[|s| - 1]) then TrimEnd(s[..|s| - 1]) else s
  }

  /** `s.trim()`: leading and trailing blanks removed. */
  function Trim(s: string): (r: string)
    ensures r == [] || (!Blank(r[0]) && !Blank(r[|r| - 1]))
  {
    TrimEnd(TrimStart(s))
  }

  /** A string that neither starts nor ends with a blank is left as it is by `trim`. */
  lemma TrimKeeps(s: string)
    requires s == [] || (!Blank(s[0]) && !Blank(s[|s| - 1]))
    ensures Trim(s) == s
  {
  }

  // ----- decimal numbers -----

  predicate IsDigit(c: char)
  {
    '0' <= c <= '9'
  }

  predicate AllDigits(s: string)
  {
    forall i | 0 <= i < |s| :: IsDigit(s[i])
  }

  /**
   * The value of a string of decimal digits, most significant first, or `None` when some
   * character is not a digit.
   */
  function DigitsValue(s: string): (r: Option<nat>)
    decreases |s|
  {
    if s == [] then Some(0)
    else
      match DigitsValue(s[..|s| - 1])
      case None => None
      case Some(v) => if IsDigit(s[|s| - 1]) then Some(v * 10 + (s[|s| - 1] as int - '0' as int)) else None
  }

  /** Digits have a value exactly when they are all digits. */
  lemma {:induction false} DigitsValueDefined(s: string)
    ensures DigitsValue(s).Some? <==> AllDigits(s)
    decreases |s|
  {
    if s != [] {
      var front := s[..|s| - 1];
      DigitsValueDefined(front);
      assert forall i | 0 <= i < |front| :: front[i] == s[i];
    }
  }

  /**
   * `Integer.parseInt(s)`: an optional sign followed by at least one decimal digit, whose
   * value fits an `int`; anything else is a `NumberFormatException`, here `None`.
   */
  function ParseInt(s: string): (r: Option<int>)
    ensures r.Some? ==> IntMin <= r.value <= IntMax
  {
    if s == [] then None
    else
      var digits := if s[0] == '-' || s[0] == '+' then s[1..] else s;
      if digits == [] || DigitsValue(digits).None? then None
      else
        var v: int := DigitsValue(digits).value;
        var n := if s[0] == '-' then -v else v;
        if IntMin <= n <= IntMax then Some(n) else None
  }

  /** The decimal digits of `n`, most significant first, without leading zeros. */
  function NatToString(n: nat): string
  {
    if n < 10 then [('0' as int + n) as char]
    else NatToString(n / 10) + [('0' as int + n % 10) as char]
  }

  /** A decimal numeral: digits, perhaps after a minus sign, ending in a digit. */
  predicate Numeral(s: string)
  {
    |s| >= 1 && IsDigit(s[|s| - 1]) && forall i | 0 <= i < |s| :: IsDigit(s[i]) || (i == 0 && s[i] == '-')
  }

  /** `String.format("%d", n)`: a minus sign before the digits of a negative number. */
  function IntToString(n: int): string
  {
    if n < 0 then "-" + NatToString(-n) else NatToString(n)
  }

  /** The digits of a number are digits, at least one, and read back give the number. */
  lemma {:induction false} NatToStringValue(n: nat)
    ensures |NatToString(n)| >= 1 && AllDigits(NatToString(n))
    ensures DigitsValue(NatToString(n)) == Some(n)
  {
    if n >= 10 {
      NatToStringValue(n / 10);
      var s := NatToString(n);
      assert s[..|s| - 1] == NatToString(n / 10);
    }
  }

  /** What `%d` writes is a numeral. */
  lemma IntToStringNumeral(n: int)
    ensures Numeral(IntToString(n))
  {
    var s := IntToString(n);
    if n < 0 {
      var d := NatToString(-n);
      NatToStringValue(-n);
      assert s == "-" + d;
      forall i | 0 <= i < |s| ensures IsDigit(s[i]) || (i == 0 && s[i] == '-') {
        if i > 0 {
          assert s[i] == d[i - 1];
        }
      }
    } else {
      NatToStringValue(n);
    }
  }

  /** `Integer.parseInt` reads back what `%d` writes, for every `int`. */
  lemma ParseIntToString(n: int)
    requires IntMin <= n <= IntMax
    ensures ParseInt(IntToString(n)) == Some(n)
  {
    var s := IntToString(n);
    if n < 0 {
      var d := NatToString(-n);
      NatToStringValue(-n);
      assert s[0] == '-' && s[1..] == d;
      assert DigitsValue(s[1..]) == Some(-n);
    } else {
      NatToStringValue(n);
      assert s == NatToString(n) && s[0] != '-' && s[0] != '+';
    }
  }

  /** `trim` leaves a numeral as it is. */
  lemma NumeralTrimmed(s: string)
    requires Numeral(s)
    ensures Trim(s) == s
  {
    assert !Blank(s[0]) && !Blank(s[|s| - 1]);
    TrimKeeps(s);
  }

  /** A numeral has no comma or line end in it. */
  lemma NumeralPlain(s: string)
    requires Numeral(s)
    ensures ',' !in s && OneLine(s)
  {
    forall i | 0 <= i < |s|
      ensures s[i] != ',' && !LineBreak(s[i])
    {
    }
  }

  // ----- lines -----

  /** The characters that end a line for `readAllLines`. */
  predicate LineBreak(c: char)
  {
    c == '\n' || c == '\r'
  }

  /** Text that holds no line end, so is read back as one line. */
  predicate OneLine(s: string)
  {
    '\n' !in s && '\r' !in s
  }

  /** The index of the first line break at or after `k`, or `|s|` when there is none. */
  function BreakAt(s: string, k: nat): (i: nat)
    requires k <= |s|
    ensures k <= i <= |s| && (i < |s| ==> LineBreak(s[i]))
    ensures forall j | k <= j < i :: !LineBreak(s[j])
    decreases |s| - k
  {
    if k == |s| || LineBreak(s[k]) then k else BreakAt(s, k + 1)
  }

  /**
   * `Files.readAllLines`: the text cut at each "\n", "\r" or "\r\n", the line ends removed;
   * a final line end does not start another line, and empty text has no lines.
   */
  function Lines(s: string): (r: seq<string>)
    ensures forall i | 0 <= i < |r| :: OneLine(r[i])
    decreases |s|
  {
    if s == [] then []
    else
      var i := BreakAt(s, 0);
      var line := s[..i];
      assert forall j | 0 <= j < |line| :: !LineBreak(line[j]);
      if i == |s| then [line]
      else if s[i] == '\r' && i + 1 < |s| && s[i + 1] == '\n' then [line] + Lines(s[i + 2..])
      else [line] + Lines(s[i + 1..])
  }

  /**
   * Lines written one after another, each followed by "\n": the text is empty only when
   * there are no lines, and otherwise ends with a line end.
   */
  function Unlines(lines: seq<string>): (r: string)
    ensures r == [] <==> lines == []
    ensures r != [] ==> r[|r| - 1] == '\n'
  {
    if lines == [] then [] else lines[0] + "\n" + Unlines(lines[1..])
  }

  /** Writing one more line appends it and its line end. */
  lemma {:induction false} UnlinesSnoc(lines: seq<string>, line: string)
    ensures Unlines(lines + [line]) == Unlines(lines) + line + "\n"
  {
    if lines != [] {
      UnlinesSnoc(lines[1..], line);
      assert (lines + [line])[1..] == lines[1..] + [line];
    }
  }

  /** Reading the lines of text written line by line gives those lines, when none holds a line end. */
  lemma {:induction false} LinesUnlines(lines: seq<string>)
    requires forall i | 0 <= i < |lines| :: OneLine(lines[i])
    ensures Lines(Unlines(lines)) == lines
  {
    if lines != [] {
      var s := Unlines(lines);
      var first, rest := lines[0], Unlines(lines[1..]);
      assert s == first + ("\n" + rest);
      assert s[|first|] == '\n';
      assert forall j | 0 <= j < |first| :: !LineBreak(s[j]) by {
        forall j | 0 <= j < |first| ensures !LineBreak(s[j]) {
          assert s[j] == first[j] && first[j] in first;
        }
      }
      assert BreakAt(s, 0) == |first| by {
        BreakAtFirst(s, 0, |first|);
      }
      assert s[..|first|] == first;
      assert s[|first| + 1..] == rest;
      assert Lines(s) == [first] + Lines(rest);
      LinesUnlines(lines[1..]);
      assert lines == [first] + lines[1..];
    }
  }

  /** The first line break from `k` on is at `i` when `s[i]` is one and none comes before it. */
  lemma {:induction false} BreakAtFirst(s: string, k: nat, i: nat)
    requires k <= i < |s| && LineBreak(s[i]) && forall j | k <= j < i :: !LineBreak(s[j])
    ensures BreakAt(s, k) == i
    decreases i - k
  {
    if k < i {
      BreakAtFirst(s, k + 1, i);
    }
  }
}
