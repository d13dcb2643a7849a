/**
 Iterating over a `tf.io.gfile.GFile`: the content is cut after every newline
 character, each line keeps its terminator, and a last line without a
 terminator is still yielded. GFile reads lines through TensorFlow's buffered
 input stream, which discards every carriage return it meets, so a CRLF file
 comes out with LF line ends. That stream is not part of this model; only the
 dropping of carriage returns is.
 */
module Lines {
  import opened Text

  /** A line as the iteration yields it: non-empty, with a newline at most as its last character. */
  predicate IsLine(l: string) {
    l != [] && '\n' !in l[..|l| - 1]
  }

  /** The line ends with its newline terminator. */
  predicate Terminated(l: string) {
    l != [] && l[|l| - 1] == '\n'
  }

  /**
   The content as GFile's line reading sees it: every carriage return is
   gone, and a text without one is left exactly as it was.
   */
  function DropCr(s: string): (r: string)
    ensures '\r' !in r
    ensures '\r' !in s ==> r == s
    decreases |s|
  {
    if s == [] then []
    else if s[0] == '\r' then DropCr(s[1..])
    else [s[0]] + DropCr(s[1..])
  }

  /** Dropping carriage returns keeps every other character, as often as it occurs. */
  lemma {:induction false} DropCrCount(s: string, c: char)
    requires c != '\r'
    ensures multiset(DropCr(s))[c] == multiset(s)[c]
    decreases |s|
  {
    if s != [] {
      DropCrCount(s[1..], c);
      assert s == [s[0]] + s[1..];
      if s[0] != '\r' {
        assert DropCr(s) == [s[0]] + DropCr(s[1..]);
      }
    }
  }

  /** Dropping carriage returns works piece by piece, so the kept characters stay in their order. */
  lemma {:induction false} DropCrAppend(a: string, b: string)
    ensures DropCr(a + b) == DropCr(a) + DropCr(b)
    decreases |a|
  {
    if a != [] {
      assert (a + b)[1..] == a[1..] + b;
      DropCrAppend(a[1..], b);
    } else {
      assert a + b == b;
    }
  }

  /**
   The lines of a text, in order. Gluing them back gives the text, every line
   is a proper line, and only the last one may lack its terminator.
   */
  function CutLines(content: string): (lines: seq<string>)
    ensures Concat(lines) == content
    ensures forall i :: 0 <= i < |lines| ==> IsLine(lines[i])
    ensures forall i :: 0 <= i < |lines| - 1 ==> Terminated(lines[i])
    decreases |content|
  {
    if content == [] then []
    else
      var k := Find(content, "\n");
      FindChar(content, '\n');
      if k < 0 then
        assert content[..|content| - 1] <= content;
        [content]
      else
        var rest := CutLines(content[k + 1..]);
        FirstLine(content, k);
        ConsLine(content[..k + 1], rest);
        [content[..k + 1]] + rest
  }

  /** The text up to and including the first newline is a terminated line. */
  lemma FirstLine(content: string, k: int)
    requires 0 <= k < |content| && content[k] == '\n' && '\n' !in content[..k]
    ensures IsLine(content[..k + 1]) && Terminated(content[..k + 1])
    ensures content[..k + 1] + content[k + 1..] == content
  {
    assert content[..k + 1][..k] == content[..k];
  }

  /** A terminated line put in front of proper lines keeps them proper and is glued in front. */
  lemma ConsLine(line: string, rest: seq<string>)
    requires IsLine(line) && Terminated(line)
    requires forall i :: 0 <= i < |rest| ==> IsLine(rest[i])
    requires forall i :: 0 <= i < |rest| - 1 ==> Terminated(rest[i])
    ensures Concat([line] + rest) == line + Concat(rest)
    ensures forall i :: 0 <= i < |[line] + rest| ==> IsLine(([line] + rest)[i])
    ensures forall i :: 0 <= i < |[line] + rest| - 1 ==> Terminated(([line] + rest)[i])
  {
    assert ([line] + rest)[1..] == rest;
  }

  /**
   The lines a GFile yields for the file `content`: gluing them back gives the
   content without its carriage returns, no line holds a carriage return, every
   line is a proper line, and only the last one may lack its terminator.
   */
  function ReadLines(content: string): (lines: seq<string>)
    ensures Concat(lines) == DropCr(content)
    ensures forall i :: 0 <= i < |lines| ==> IsLine(lines[i]) && '\r' !in lines[i]
    ensures forall i :: 0 <= i < |lines| - 1 ==> Terminated(lines[i])
  {
    var lines := CutLines(DropCr(content));
    assert forall i :: 0 <= i < |lines| ==> '\r' !in lines[i] by {
      forall i | 0 <= i < |lines| ensures '\r' !in lines[i] {
        if '\r' in lines[i] {
          ConcatKeepsChars(lines, i, '\r');
        }
      }
    }
    lines
  }

  /** The first line of `content` is everything up to and including the first newline. */
  lemma CutLinesFirst(content: string)
    ensures content == [] ==> CutLines(content) == []
    ensures content != [] && Find(content, "\n") < 0 ==> CutLines(content) == [content]
    ensures content != [] && Find(content, "\n") >= 0 ==>
      CutLines(content)[1..] == CutLines(content[Find(content, "\n") + 1..])
  {
  }

  /**
   Reading a file recovers any sequence of proper lines without carriage
   returns from their concatenation, provided every line but the last is
   terminated.
   */
  lemma ReadLinesConcat(lines: seq<string>)
    requires forall i :: 0 <= i < |lines| ==> IsLine(lines[i]) && '\r' !in lines[i]
    requires forall i :: 0 <= i < |lines| - 1 ==> Terminated(lines[i])
    ensures ReadLines(Concat(lines)) == lines
  {
    ConcatFree(lines, '\r');
    CutLinesConcat(lines);
  }

  /** A terminated line in front of a text is cut off as the first line. */
  lemma CutLinesCons(l: string, text: string)
    requires IsLine(l) && Terminated(l)
    ensures CutLines(l + text) == [l] + CutLines(text)
  {
    var content := l + text;
    var k := |l| - 1;
    assert content[..k] == l[..k];
    FindCharAt(content, '\n', k);
    assert content[..k + 1] == l;
    assert content[k + 1..] == text;
  }

  /** A line without its terminator is cut as that one line. */
  lemma CutLinesLast(l: string)
    requires IsLine(l) && !Terminated(l)
    ensures CutLines(l) == [l]
  {
    assert '\n' !in l by {
      assert l == l[..|l| - 1] + [l[|l| - 1]];
    }
    FindChar(l, '\n');
  }

  /**
   `CutLines` recovers any sequence of proper lines from their concatenation,
   provided every line but the last is terminated.
   */
  lemma {:induction false} CutLinesConcat(lines: seq<string>)
    requires forall i :: 0 <= i < |lines| ==> IsLine(lines[i])
    requires forall i :: 0 <= i < |lines| - 1 ==> Terminated(lines[i])
    ensures CutLines(Concat(lines)) == lines
    decreases |lines|
  {
    if lines != [] {
      var l := lines[0];
      var rest := lines[1..];
      var content := Concat(lines);
      assert content == l + Concat(rest);
      if Terminated(l) {
        CutLinesCons(l, Concat(rest));
        forall i | 0 <= i < |rest| ensures IsLine(rest[i]) {
          assert rest[i] == lines[i + 1];
        }
        forall i | 0 <= i < |rest| - 1 ensures Terminated(rest[i]) {
          assert rest[i] == lines[i + 1];
        }
        CutLinesConcat(rest);
        assert lines == [l] + rest;
      } else {
        assert rest == [];
        assert Concat(rest) == [];
        CutLinesLast(l);
      }
    }
  }
}
