/** Line-delimited text files: `BufRead::lines` on the reading side and
    "each entry followed by a newline" on the writing side. */
module Lines {
  import opened Wrappers

  /** One decoded character of a file, or a byte sequence that is not UTF-8. */
  datatype TextUnit = Char(c: char) | Undecodable

  datatype ReadError = NotFound | OpenFailed | InvalidData

  /** A list file as the program finds it on disk. */
  datatype ListFile = Absent | Unopenable | Present(content: seq<TextUnit>)

  function Encode(s: string): (t: seq<TextUnit>)
    ensures |t| == |s| && Decodable(t)
    ensures forall i :: 0 <= i < |s| ==> t[i] == Char(s[i])
  {
    seq(|s|, i requires 0 <= i < |s| => Char(s[i]))
  }

  predicate Decodable(t: seq<TextUnit>)
  {
    forall i :: 0 <= i < |t| ==> t[i].Char?
  }

  function Decode(t: seq<TextUnit>): (s: string)
    requires Decodable(t)
    ensures |s| == |t| && forall i :: 0 <= i < |t| ==> t[i] == Char(s[i])
  {
    seq(|t|, i requires 0 <= i < |t| => t[i].c)
  }

  /** The position of the first newline, or the length when there is none. */
  function LineEnd(t: seq<TextUnit>): (k: nat)
    ensures k <= |t|
    ensures forall i :: 0 <= i < k ==> t[i] != Char('\n')
    ensures k < |t| ==> t[k] == Char('\n')
  {
    if |t| == 0 || t[0] == Char('\n') then 0 else 1 + LineEnd(t[1..])
  }

  /** `BufRead::lines` with every line unwrapped: split at each newline; a
      newline-terminated line also loses one `\r` before its newline; an
      unterminated last line is kept as it is; a line that is not UTF-8 ends
      the whole read with an error. */
  function ReadLines(t: seq<TextUnit>): (r: Result<seq<string>, ReadError>)
    ensures r.Ok? <==> Decodable(t)
    ensures r.Err? ==> r.error == InvalidData
    ensures r.Ok? ==> forall j :: 0 <= j < |r.value| ==> '\n' !in r.value[j]
    decreases |t|
  {
    if |t| == 0 then Ok([])
    else
      var k := LineEnd(t);
      var rest := if k < |t| then t[k + 1..] else [];
      if !Decodable(t[..k]) then
        LinePartsDecodable(t, k);
        Err(InvalidData)
      else
        var line := Decode(t[..k]);
        var s := if k < |t| && |line| > 0 && line[|line| - 1] == '\r' then line[..|line| - 1] else line;
        assert '\n' !in s by {
          assert forall i :: 0 <= i < |line| ==> line[i] != '\n';
        }
        LinePartsDecodable(t, k);
        match ReadLines(rest)
        case Ok(ls) => Ok([s] + ls)
        case Err(e) => Err(e)
  }

  /** A text decodes exactly when its first line and the rest after the
      newline do. */
  lemma LinePartsDecodable(t: seq<TextUnit>, k: nat)
    requires k == LineEnd(t)
    ensures Decodable(t) <==> Decodable(t[..k]) && Decodable(if k < |t| then t[k + 1..] else [])
  {
    var rest := if k < |t| then t[k + 1..] else [];
    assert t == t[..k] + (if k < |t| then [t[k]] else []) + rest;
    if Decodable(t) {
      assert forall i :: 0 <= i < k ==> t[..k][i] == t[i];
      assert forall i :: 0 <= i < |rest| ==> rest[i] == t[k + 1 + i];
    }
  }

  /** The text of a list written one entry per line, each followed by `\n`. */
  function Terminated(lines: seq<string>): string
  {
    if |lines| == 0 then "" else lines[0] + "\n" + Terminated(lines[1..])
  }

  /** An entry that reads back as itself: no newline inside and no `\r` at its end. */
  predicate LineSafe(s: string)
  {
    '\n' !in s && (|s| == 0 || s[|s| - 1] != '\r')
  }

  /** Writing a list and reading it back returns the list. */
  lemma {:induction false} ReadTerminated(lines: seq<string>)
    requires forall i :: 0 <= i < |lines| ==> LineSafe(lines[i])
    ensures ReadLines(Encode(Terminated(lines))) == Ok(lines)
  {
    if |lines| > 0 {
      ReadTerminated(lines[1..]);
      ReadFirstLine(lines[0], Terminated(lines[1..]));
      assert lines == [lines[0]] + lines[1..];
    }
  }

  /** A line-safe first line followed by a newline reads back as itself. */
  lemma ReadFirstLine(l: string, tail: string)
    requires LineSafe(l)
    ensures ReadLines(Encode(l + "\n" + tail)) == Ok([l] + ReadLines(Encode(tail)).value)
  {
    var t := Encode(l + "\n" + tail);
    assert t == Encode(l) + [Char('\n')] + Encode(tail);
    LineEndOf(Encode(l), Encode(tail));
    assert t[..|l|] == Encode(l) && t[|l| + 1..] == Encode(tail);
    assert Decode(Encode(l)) == l;
    FirstLineKept(t);
  }

  lemma LineEndOf(line: seq<TextUnit>, rest: seq<TextUnit>)
    requires Char('\n') !in line
    ensures LineEnd(line + [Char('\n')] + rest) == |line|
  {
    if |line| > 0 {
      assert (line + [Char('\n')] + rest)[1..] == line[1..] + [Char('\n')] + rest;
      LineEndOf(line[1..], rest);
    }
  }

  /** No `\r` right before a newline: every line ends in a bare `\n`. */
  predicate BareNewlines(s: string)
  {
    forall i :: 0 < i < |s| && s[i] == '\n' ==> s[i - 1] != '\r'
  }

  /** Reading a newline-terminated text whose lines end in bare `\n` and
      writing the lines back reproduces the text. */
  lemma {:induction false} TerminatedRead(s: string)
    requires BareNewlines(s)
    requires |s| == 0 || s[|s| - 1] == '\n'
    ensures ReadLines(Encode(s)).Ok?
    ensures Terminated(ReadLines(Encode(s)).value) == s
    decreases |s|
  {
    if |s| > 0 {
      var k := FirstLineOf(s);
      var rest := s[k + 1..];
      assert BareNewlines(rest) by {
        forall i | 0 < i < |rest| && rest[i] == '\n' ensures rest[i - 1] != '\r' {
          assert rest[i] == s[k + 1 + i] && rest[i - 1] == s[k + i];
        }
      }
      TerminatedRead(rest);
      var ls := ReadLines(Encode(rest)).value;
      Reassemble(s, k, ls);
    } else {
      assert Encode(s) == [];
    }
  }

  lemma Reassemble(s: string, k: nat, ls: seq<string>)
    requires k < |s| && s[k] == '\n'
    requires Terminated(ls) == s[k + 1..]
    ensures Terminated([s[..k]] + ls) == s
  {
    assert ([s[..k]] + ls)[1..] == ls;
    assert s == s[..k] + [s[k]] + s[k + 1..];
  }

  /** The first line of a newline-terminated text with bare newlines, and the
      text's reading as that line followed by the reading of the rest. */
  lemma FirstLineOf(s: string) returns (k: nat)
    requires BareNewlines(s)
    requires |s| > 0 && s[|s| - 1] == '\n'
    ensures k < |s| && s[k] == '\n' && '\n' !in s[..k]
    ensures ReadLines(Encode(s)) == Ok([s[..k]] + ReadLines(Encode(s[k + 1..])).value)
  {
    var t := Encode(s);
    assert Decodable(t);
    k := LineEnd(t);
    assert t[|s| - 1] == Char('\n');
    EncodeSlices(s, k);
    assert |s[..k]| == 0 || s[..k][k - 1] != '\r' by {
      if k > 0 { assert s[..k][k - 1] == s[k - 1]; }
    }
    FirstLineKept(t);
    var line, rest := Decode(t[..k]), t[k + 1..];
    assert ReadLines(t) == Ok([line] + ReadLines(rest).value);
    assert line == s[..k] && rest == Encode(s[k + 1..]);
    assert forall i :: 0 <= i < k ==> s[..k][i] != '\n' by {
      forall i | 0 <= i < k ensures s[..k][i] != '\n' {
        assert t[i] == Char(s[i]);
      }
    }
  }

  lemma EncodeSlices(s: string, k: nat)
    requires k < |s|
    ensures Encode(s)[k + 1..] == Encode(s[k + 1..])
    ensures Decode(Encode(s)[..k]) == s[..k]
  {
  }

  /** A first line that ends in a newline and not in `\r` is read unchanged. */
  lemma FirstLineKept(t: seq<TextUnit>)
    requires Decodable(t)
    requires LineEnd(t) < |t|
    requires var line := Decode(t[..LineEnd(t)]); |line| == 0 || line[|line| - 1] != '\r'
    ensures ReadLines(t) == Ok([Decode(t[..LineEnd(t)])] + ReadLines(t[LineEnd(t) + 1..]).value)
  {
    var k := LineEnd(t);
    LinePartsDecodable(t, k);
    assert ReadLines(t[k + 1..]).Ok?;
  }

  /** Writing one more entry appends its line to the text. */
  lemma {:induction false} TerminatedSnoc(lines: seq<string>, l: string)
    ensures Terminated(lines + [l]) == Terminated(lines) + l + "\n"
  {
    if |lines| > 0 {
      assert (lines + [l])[1..] == lines[1..] + [l];
      TerminatedSnoc(lines[1..], l);
    }
  }

  // ---------------------------------------------------------------------
  // Any text: lines with their endings

  /** How a line ends in the file. */
  datatype LineEnding = LF | CRLF | EndOfFile

  function EndingText(e: LineEnding): string
  {
    match e
    case LF => "\n"
    case CRLF => "\r\n"
    case EndOfFile => ""
  }

  /** The text of lines, each followed by its own ending. */
  function Joined(lines: seq<string>, ends: seq<LineEnding>): string
    requires |lines| == |ends|
  {
    if |lines| == 0 then "" else lines[0] + EndingText(ends[0]) + Joined(lines[1..], ends[1..])
  }

  /** The lines and endings a text can be cut into: no newline inside a line;
      only a non-empty last line may run to the end of the file; a line
      that ends in `\r` cannot be followed by a bare `\n`, since that `\r`
      would be read as part of a `\r\n`. */
  predicate Layout(lines: seq<string>, ends: seq<LineEnding>)
  {
    && |lines| == |ends|
    && forall i :: 0 <= i < |lines| ==>
         && '\n' !in lines[i]
         && (ends[i] == EndOfFile ==> i == |lines| - 1 && |lines[i]| > 0)
         && (ends[i] == LF ==> |lines[i]| == 0 || lines[i][|lines[i]| - 1] != '\r')
  }

  /** Reading a text cut into lines with `\n`, `\r\n` or no ending at all
      returns exactly those lines. */
  lemma {:induction false} ReadJoined(lines: seq<string>, ends: seq<LineEnding>)
    requires Layout(lines, ends)
    ensures ReadLines(Encode(Joined(lines, ends))) == Ok(lines)
  {
    if |lines| > 0 {
      var tail := Joined(lines[1..], ends[1..]);
      assert Layout(lines[1..], ends[1..]) by {
        forall i | 0 <= i < |lines[1..]|
          ensures && '\n' !in lines[1..][i]
                  && (ends[1..][i] == EndOfFile ==> i == |lines[1..]| - 1 && |lines[1..][i]| > 0)
                  && (ends[1..][i] == LF ==> |lines[1..][i]| == 0 || lines[1..][i][|lines[1..][i]| - 1] != '\r')
        {
          assert lines[1..][i] == lines[i + 1] && ends[1..][i] == ends[i + 1];
        }
      }
      ReadJoined(lines[1..], ends[1..]);
      ReadOneLine(lines[0], ends[0], tail);
      assert lines == [lines[0]] + lines[1..];
    }
  }

  /** One line with its ending, followed by more text, reads as that line
      followed by the reading of the rest. */
  lemma ReadOneLine(l: string, e: LineEnding, tail: string)
    requires '\n' !in l
    requires e == LF ==> |l| == 0 || l[|l| - 1] != '\r'
    requires e == EndOfFile ==> tail == "" && |l| > 0
    ensures ReadLines(Encode(l + EndingText(e) + tail)) == Ok([l] + ReadLines(Encode(tail)).value)
  {
    match e
    case LF => ReadFirstLine(l, tail);
    case CRLF => ReadFirstCrlfLine(l, tail);
    case EndOfFile =>
      ReadLastLine(l);
      assert l + EndingText(e) + tail == l && Encode(tail) == [];
      assert ReadLines(Encode(tail)) == Ok([]) && [l] + [] == [l];
  }

  /** A line ended by `\r\n` loses the `\r`. */
  lemma ReadFirstCrlfLine(l: string, tail: string)
    requires '\n' !in l
    ensures ReadLines(Encode(l + "\r\n" + tail)) == Ok([l] + ReadLines(Encode(tail)).value)
  {
    var m := l + "\r";
    assert l + "\r\n" + tail == m + "\n" + tail;
    var t := Encode(m + "\n" + tail);
    assert t == Encode(m) + [Char('\n')] + Encode(tail);
    LineEndOf(Encode(m), Encode(tail));
    assert t[..|m|] == Encode(m) && t[|m| + 1..] == Encode(tail);
    assert Decode(Encode(m)) == m;
    FirstLineCrStripped(t);
    assert m[..|m| - 1] == l;
  }

  /** A first line that ends in `\r` before its newline is read without it. */
  lemma FirstLineCrStripped(t: seq<TextUnit>)
    requires Decodable(t)
    requires LineEnd(t) < |t|
    requires var line := Decode(t[..LineEnd(t)]); |line| > 0 && line[|line| - 1] == '\r'
    ensures var line := Decode(t[..LineEnd(t)]);
      ReadLines(t) == Ok([line[..|line| - 1]] + ReadLines(t[LineEnd(t) + 1..]).value)
  {
    var k := LineEnd(t);
    LinePartsDecodable(t, k);
    assert ReadLines(t[k + 1..]).Ok?;
  }

  /** A last line with no newline after it is read unchanged, `\r` included. */
  lemma ReadLastLine(l: string)
    requires '\n' !in l && |l| > 0
    ensures ReadLines(Encode(l)) == Ok([l])
  {
    var t := Encode(l);
    assert Char('\n') !in t;
    assert LineEnd(t) == |t|;
    assert t[..|t|] == t;
    assert Decode(t) == l;
    assert Decodable(t[..LineEnd(t)]);
    assert ReadLines(t) == Ok([Decode(t[..|t|])] + ReadLines([]).value);
    assert [l] + [] == [l];
  }

  /** Every decodable text is the lines `lines()` returns, each followed by
      the ending it had in the file, in a layout that reads back the same. */
  lemma {:induction false} ReadSplits(s: string) returns (ends: seq<LineEnding>)
    ensures ReadLines(Encode(s)).Ok?
    ensures Layout(ReadLines(Encode(s)).value, ends)
    ensures Joined(ReadLines(Encode(s)).value, ends) == s
    decreases |s|
  {
    if |s| == 0 {
      assert Encode(s) == [];
      ends := [];
    } else {
      var l, e, tail := FirstLineSplit(s);
      ReadOneLine(l, e, tail);
      var rest := ReadSplits(tail);
      var ls := ReadLines(Encode(tail)).value;
      if e == EndOfFile {
        assert Encode(tail) == [];
      }
      LayoutCons(l, e, ls, rest);
      ends := [e] + rest;
    }
  }

  /** The first line of a non-empty text, the ending that follows it, and
      the text after that ending. */
  lemma FirstLineSplit(s: string) returns (l: string, e: LineEnding, tail: string)
    requires |s| > 0
    ensures s == l + EndingText(e) + tail && |tail| < |s|
    ensures '\n' !in l
    ensures e == LF ==> |l| == 0 || l[|l| - 1] != '\r'
    ensures e == EndOfFile ==> tail == "" && |l| > 0
  {
    var k := NewlineAt(s);
    if k == |s| {
      l, e, tail := s, EndOfFile, "";
      assert s[..k] == s;
    } else if k > 0 && s[k - 1] == '\r' {
      l, e, tail := s[..k - 1], CRLF, s[k + 1..];
      assert s == s[..k - 1] + "\r\n" + s[k + 1..];
      assert s[..k - 1] == s[..k][..k - 1];
    } else {
      l, e, tail := s[..k], LF, s[k + 1..];
      assert s == s[..k] + "\n" + s[k + 1..];
    }
  }

  /** Putting one more line with its ending in front of a layout. */
  lemma LayoutCons(l: string, e: LineEnding, ls: seq<string>, rest: seq<LineEnding>)
    requires Layout(ls, rest)
    requires '\n' !in l
    requires e == LF ==> |l| == 0 || l[|l| - 1] != '\r'
    requires e == EndOfFile ==> ls == [] && |l| > 0
    ensures Layout([l] + ls, [e] + rest)
    ensures Joined([l] + ls, [e] + rest) == l + EndingText(e) + Joined(ls, rest)
  {
    var lines, ends := [l] + ls, [e] + rest;
    assert lines[1..] == ls && ends[1..] == rest;
    forall i | 0 <= i < |lines|
      ensures && '\n' !in lines[i]
              && (ends[i] == EndOfFile ==> i == |lines| - 1 && |lines[i]| > 0)
              && (ends[i] == LF ==> |lines[i]| == 0 || lines[i][|lines[i]| - 1] != '\r')
    {
      if i > 0 {
        assert lines[i] == ls[i - 1] && ends[i] == rest[i - 1];
      }
    }
  }

  /** A list saved with Windows line endings reads as its entries without
      the `\r`; a last entry with no newline after it is still read. */
  lemma CrlfExample()
    ensures ReadLines(Encode("a\r\nb\r\nc")) == Ok(["a", "b", "c"])
  {
    var lines, ends := ["a", "b", "c"], [CRLF, CRLF, EndOfFile];
    assert Joined(lines[2..], ends[2..]) == "c";
    assert Joined(lines[1..], ends[1..]) == "b\r\nc";
    assert Joined(lines, ends) == "a\r\nb\r\nc";
    ReadJoined(lines, ends);
  }

  /** The position of the first newline in `s`, or its length. */
  lemma NewlineAt(s: string) returns (k: nat)
    ensures k <= |s| && '\n' !in s[..k]
    ensures k < |s| ==> s[k] == '\n'
  {
    var t := Encode(s);
    k := LineEnd(t);
    forall i | 0 <= i < k ensures s[..k][i] != '\n' {
      assert t[i] == Char(s[i]);
    }
  }
}
