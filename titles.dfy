/**
  The display title of a document, derived from one line of its text
  (`CodeArea.settitle`, codearea.py:176-181).
*/
module Titles {

  /** Title shown for a document whose first line is empty. */
  const Placeholder: string := "Untitled"

  /** `line.startswith('def ') and line.endswith(':')` */
  predicate IsDefLine(line: string) {
    |line| >= 4 && line[..4] == "def " && line[|line| - 1] == ':'
  }

  /**
    A function header gives its signature, `line[4:-1]`; an empty line gives
    the placeholder; any other line is its own title.
  */
  function DeriveTitle(line: string): (title: string)
    ensures IsDefLine(line) ==> |title| == |line| - 5
    ensures !IsDefLine(line) && line != [] ==> title == line
  {
    if IsDefLine(line) then
      assert line[3] == ' ';
      line[4..|line| - 1]
    else if line == "" then Placeholder
    else line
  }

  /** A function header is rebuilt from its title: nothing of the line is lost but the frame. */
  lemma DefLineFromTitle(line: string)
    requires IsDefLine(line)
    ensures "def " + DeriveTitle(line) + ":" == line
  {
    var t := DeriveTitle(line);
    assert line == line[..4] + line[4..|line| - 1] + [line[|line| - 1]];
  }

  /** Conversely, the header built from any signature yields that signature back. */
  lemma TitleOfDefLine(signature: string)
    ensures DeriveTitle("def " + signature + ":") == signature
  {
    var line := "def " + signature + ":";
    assert line[..4] == "def ";
    assert IsDefLine(line);
    assert line[4..|line| - 1] == signature;
  }

  /** The only line whose title is empty is the bare header `def :`. */
  lemma EmptyTitle(line: string)
    ensures DeriveTitle(line) == "" <==> line == "def :"
  {
    if IsDefLine(line) {
      DefLineFromTitle(line);
      if DeriveTitle(line) == "" {
        assert line == "def " + "" + ":";
      }
    } else {
      assert "def :"[..4] == "def ";
    }
  }

  /** The three cases named by the editor's behaviour. */
  lemma TitleExamples()
    ensures DeriveTitle("def foo(x):") == "foo(x)"
    ensures DeriveTitle("") == Placeholder
    ensures DeriveTitle("print(1)") == "print(1)"
  {
    TitleOfDefLine("foo(x)");
    assert !IsDefLine("print(1)");
  }

}
