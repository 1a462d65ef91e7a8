/**
  The number of spaces the editor inserts after Return (`CodeArea.keyPressEvent`,
  codearea.py:129-147): the indentation of the current block, plus four when
  the character before the cursor is a colon.
*/
module Indent {

  import opened Options

  /** The characters Python 2's `unicode.split()` treats as separators. */
  predicate IsSpace(c: char) {
    || ('\t' <= c <= '\r')                  // tab, line feed, vertical tab, form feed, carriage return
    || ('\U{001C}' <= c <= '\U{001F}')      // file, group, record and unit separators
    || c == ' ' || c == '\U{0085}' || c == '\U{00A0}'
    || c == '\U{1680}' || c == '\U{180E}'
    || ('\U{2000}' <= c <= '\U{200A}')
    || c == '\U{2028}' || c == '\U{2029}' || c == '\U{202F}' || c == '\U{205F}' || c == '\U{3000}'
  }

  /** Number of separator characters at the start of `s`. */
  function LeadingBlanks(s: string): (k: nat)
    ensures k <= |s|
    ensures forall i :: 0 <= i < k ==> IsSpace(s[i])
    ensures k < |s| ==> !IsSpace(s[k])
  {
    if |s| == 0 || !IsSpace(s[0]) then 0 else 1 + LeadingBlanks(s[1..])
  }

  /** Length of the run of non-separator characters at the start of `s`. */
  function WordLength(s: string): (k: nat)
    ensures k <= |s|
    ensures forall i :: 0 <= i < k ==> !IsSpace(s[i])
    ensures k < |s| ==> IsSpace(s[k])
  {
    if |s| == 0 || IsSpace(s[0]) then 0 else 1 + WordLength(s[1..])
  }

  /** `ts[0]` for `ts = s.split()`, or None when `ts` is empty. */
  function FirstWord(s: string): (r: Option<string>)
    ensures r.None? <==> forall i :: 0 <= i < |s| ==> IsSpace(s[i])
    ensures r.Some? ==>
      var k := LeadingBlanks(s);
      && |r.value| >= 1 && k + |r.value| <= |s| && s[k..k + |r.value|] == r.value
      && (forall i :: 0 <= i < |r.value| ==> !IsSpace(r.value[i]))
      && (k + |r.value| < |s| ==> IsSpace(s[k + |r.value|]))
  {
    var k := LeadingBlanks(s);
    if k == |s| then None else Some(s[k..k + WordLength(s[k..])])
  }

  /** `w` occurs in `s` starting at offset `i`. */
  predicate OccursAt(s: string, w: string, i: int) {
    0 <= i && i + |w| <= |s| && s[i..i + |w|] == w
  }

  /** `s.find(w)`: the first offset where `w` occurs, or -1. */
  function Find(s: string, w: string): (r: int)
    ensures r == -1 || OccursAt(s, w, r)
    ensures forall i :: 0 <= i < r ==> !OccursAt(s, w, i)
    ensures r == -1 ==> forall i :: !OccursAt(s, w, i)
  {
    if |s| < |w| then -1
    else if s[..|w|] == w then 0
    else
      var r := Find(s[1..], w);
      assert forall i :: 1 <= i ==> (OccursAt(s, w, i) <==> OccursAt(s[1..], w, i - 1)) by {
        forall i | 1 <= i ensures OccursAt(s, w, i) <==> OccursAt(s[1..], w, i - 1) {
          OccursShift(s, w, i);
        }
      }
      if r < 0 then -1 else r + 1
  }

  /** Looking from the second character on moves every occurrence one place left. */
  lemma OccursShift(s: string, w: string, i: int)
    requires |s| >= 1 && 1 <= i
    ensures OccursAt(s, w, i) <==> OccursAt(s[1..], w, i - 1)
  {
    if i + |w| <= |s| {
      var here, shifted := s[i..i + |w|], s[1..][i - 1..i - 1 + |w|];
      forall k | 0 <= k < |w| ensures here[k] == shifted[k] {
        assert here[k] == s[i + k] && shifted[k] == s[1..][i - 1 + k];
      }
      assert here == shifted;
    }
  }

  /** The first word of a block is found where its leading blanks end. */
  lemma FindFirstWord(s: string, w: string)
    requires FirstWord(s) == Some(w)
    ensures Find(s, w) == LeadingBlanks(s)
  {
    var k := LeadingBlanks(s);
    assert |w| >= 1 && w[0] == s[k];
    assert OccursAt(s, w, k);
    assert !IsSpace(w[0]);
  }

  /**
    Width of the automatic indent: nothing at the start of a block; otherwise
    the offset of the block's first word (0 for a blank block), plus 4 after a colon.
  */
  function IndentWidth(atBlockStart: bool, block: string, before: char): (width: int)
    ensures 0 <= width <= |block| + 4
  {
    if atBlockStart then 0
    else
      var lead := match FirstWord(block)
        case Some(w) => (FindFirstWord(block, w); Find(block, w))
        case None => 0;
      if before == ':' then lead + 4 else lead
  }

  /** The indent repeats the block's leading blanks, and opens a new level after a colon. */
  lemma IndentRepeatsLeadingBlanks(atBlockStart: bool, block: string, before: char)
    ensures IndentWidth(atBlockStart, block, before) ==
      if atBlockStart then 0
      else (if LeadingBlanks(block) < |block| then LeadingBlanks(block) else 0)
           + (if before == ':' then 4 else 0)
  {
    match FirstWord(block)
    case Some(w) => FindFirstWord(block, w);
    case None =>
  }

}
