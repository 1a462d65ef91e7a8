/**
  The text of a document seen as its lines (the text blocks of the editor's
  document): `text.split('\n')` as `switchto` and `add` take it, the first block
  that `keyPressEvent` reads, and the character offsets that `selectline`
  accumulates (codearea.py:234-252).
*/
module Lines {

  /** The pieces of `s` between newline characters, as Python's `s.split('\n')` gives them. */
  function Split(s: string): (lines: seq<string>)
    ensures |lines| >= 1
    ensures forall i :: 0 <= i < |lines| ==> '\n' !in lines[i]
  {
    if |s| == 0 then [""]
    else
      var rest := Split(s[1..]);
      if s[0] == '\n' then [""] + rest
      else [[s[0]] + rest[0]] + rest[1..]
  }

  /** `'\n'.join(lines)` */
  function Join(lines: seq<string>): string {
    if |lines| == 0 then ""
    else if |lines| == 1 then lines[0]
    else lines[0] + "\n" + Join(lines[1..])
  }

  /** The first line of `s`: the title source used by `switchto`, `add` and `keyPressEvent`. */
  function FirstLine(s: string): string {
    Split(s)[0]
  }

  /** Joining the lines of a text gives the text back. */
  lemma {:induction false} JoinSplit(s: string)
    ensures Join(Split(s)) == s
  {
    if |s| > 0 {
      var rest := Split(s[1..]);
      JoinSplit(s[1..]);
      if s[0] == '\n' {
        assert Split(s) == [""] + rest;
        assert Join(Split(s)) == "" + "\n" + Join(rest);
      } else {
        var lines := Split(s);
        assert lines == [[s[0]] + rest[0]] + rest[1..];
        if |rest| == 1 {
          assert Join(lines) == [s[0]] + rest[0];
        } else {
          assert lines[1..] == rest[1..];
          assert Join(rest) == rest[0] + "\n" + Join(rest[1..]);
          assert Join(lines) == [s[0]] + rest[0] + "\n" + Join(rest[1..]);
        }
      }
      assert s == [s[0]] + s[1..];
    }
  }

  /** The first line holds no newline and the text continues with a newline right after it, if at all. */
  lemma FirstLineIsPrefix(s: string)
    ensures '\n' !in FirstLine(s)
    ensures |FirstLine(s)| <= |s| && s[..|FirstLine(s)|] == FirstLine(s)
    ensures |FirstLine(s)| < |s| ==> s[|FirstLine(s)|] == '\n'
  {
    var lines := Split(s);
    JoinSplit(s);
    if |lines| > 1 {
      assert s == lines[0] + "\n" + Join(lines[1..]);
    }
  }

  /**
    Text of block `k` (numbered from 1). Past the last block the editor hands
    back an invalid block, whose text is empty.
  */
  function BlockText(blocks: seq<string>, k: int): string {
    if 1 <= k <= |blocks| then blocks[k - 1] else ""
  }

  /** Offset of the first character of block `n`: each earlier block counts its length plus one separator. */
  function LineStart(blocks: seq<string>, n: int): (start: nat)
    ensures start >= n - 1
  {
    if n <= 1 then 0 else LineStart(blocks, n - 1) + |BlockText(blocks, n - 1)| + 1
  }

  /** Dropping the first block shifts every later start by that block and its separator. */
  lemma {:induction false} LineStartShift(blocks: seq<string>, n: int)
    requires |blocks| >= 1 && n >= 2
    ensures LineStart(blocks, n) == |blocks[0]| + 1 + LineStart(blocks[1..], n - 1)
  {
    if n > 2 {
      LineStartShift(blocks, n - 1);
      assert BlockText(blocks, n - 1) == BlockText(blocks[1..], n - 2);
    }
  }

  /** In the joined text, the range from `LineStart` over the length of block `n` is block `n`. */
  lemma {:induction false} JoinedLineAt(blocks: seq<string>, n: int)
    requires 1 <= n <= |blocks|
    ensures LineStart(blocks, n) + |blocks[n - 1]| <= |Join(blocks)|
    ensures Join(blocks)[LineStart(blocks, n)..LineStart(blocks, n) + |blocks[n - 1]|] == blocks[n - 1]
  {
    var joined := Join(blocks);
    if n == 1 {
      if |blocks| > 1 {
        assert joined == blocks[0] + ("\n" + Join(blocks[1..]));
      }
      assert joined[..|blocks[0]|] == blocks[0];
    } else {
      var head := blocks[0] + "\n";
      var tail := Join(blocks[1..]);
      assert joined == head + tail;
      LineStartShift(blocks, n);
      JoinedLineAt(blocks[1..], n - 1);
      var start := LineStart(blocks[1..], n - 1);
      assert blocks[1..][n - 2] == blocks[n - 1];
      assert LineStart(blocks, n) == |head| + start;
      assert joined[|head| + start..|head| + start + |blocks[n - 1]|] == tail[start..start + |blocks[n - 1]|];
    }
  }

  /**
    The selection that `selectline(n)` makes covers exactly line `n` of the
    document, for every line that exists.
  */
  lemma SelectionIsLine(text: string, n: int)
    requires 1 <= n <= |Split(text)|
    ensures LineStart(Split(text), n) + |Split(text)[n - 1]| <= |text|
    ensures text[LineStart(Split(text), n)..LineStart(Split(text), n) + |Split(text)[n - 1]|] == Split(text)[n - 1]
  {
    JoinSplit(text);
    JoinedLineAt(Split(text), n);
  }

}
