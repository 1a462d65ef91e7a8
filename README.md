# Pynguin code editor: document bookkeeping in Dafny

This project models the multi-document editor widget `CodeArea` of Pynguin, a
turtle-graphics teaching environment. The widget keeps:

- a table `documents` from document id to text;
- the id of the current document, `docid`;
- the document selector `mselect`, a combo box of (title, id) entries with a current index;
- a cached title `title`;
- the editing buffer `_doc`, held here as its plain text.

Its operations `new`, `add`, `switchto`, `savecurrent`, `clear`, `promote`, `demote`
and `settitle` are modelled twice. Each is a function from state to state in
module `Documents`, and the properties are proved there as lemmas. Each is also
a method of class `CodeAreaWidget.CodeArea`, which updates the fields in place
in the order of the Python code. Every method is proved to leave exactly the
state the matching function describes.

Three string computations of the same file are modelled as functions:

- the title derived from a line (module `Titles`);
- the width of the automatic indent after Return (module `Indent`);
- the offsets `selectline` computes for line `n` (module `Lines`, method `CodeArea.SelectLine`).

Two invariants organise the state:

- `WellFormed`: selector ids are distinct and all in the table, the selector index is valid, and the cached title is unset. Every operation keeps it.
- `Synced`: additionally, the selector ids are exactly the table's keys and the selected entry is the current document. Every operation but `clear` keeps it.

Three behaviours of the code are modelled as written:

- The guard `if title == self.title: return` (codearea.py:183) never fires, because `self.title` stays `None` after `__init__` (codearea.py:111). Every `settitle` call therefore rewrites the selector entry (`SetTitleAt` holds unconditionally).
- `clear` (codearea.py:115-118) does not reset `docid`. The next flush re-creates that id's key with no selector entry (`ClearThenNewKeepsStaleDocument`).
- Because of that, "one table entry per `new`/`add` call" holds only from a `Synced` state (`RunCountsCreations`).

## Model

| member | source | states |
|---|---|---|
| Titles.DeriveTitle | codearea.py:176-181 | a `def ...:` line loses exactly its five frame characters; any other non-empty line is its own title |
| Titles.DefLineFromTitle | codearea.py:176-177 | for a `def ...:` line, `"def " + title + ":"` rebuilds the line |
| Titles.TitleOfDefLine | codearea.py:176-177 | the header built from any signature yields that signature as its title |
| Titles.EmptyTitle | codearea.py:176-181 | the title is empty exactly for the line `def :` |
| Titles.TitleExamples | codearea.py:176-181 | `def foo(x):` gives `foo(x)`, the empty line gives `Untitled`, `print(1)` gives itself |
| Lines.Split | codearea.py:223 | `split('\n')` gives at least one piece and no piece holds a newline |
| Lines.JoinSplit | codearea.py:223 | joining the pieces with newlines gives the text back |
| Lines.FirstLineIsPrefix | codearea.py:223 | the first line is the text up to its first newline |
| Lines.LineStart | codearea.py:236-244 | the start of line n counts at least one separator per earlier line; JoinedLineAt states that it is where line n begins |
| Lines.LineStartShift | codearea.py:236-244 | dropping the first block shifts every later line start by that block's length plus one |
| Lines.JoinedLineAt | codearea.py:236-247 | in the joined text, the range from a line's start over its length is that line |
| Lines.SelectionIsLine | codearea.py:236-251 | for 1 <= n <= number of lines, the selected range of the buffer is exactly line n |
| Indent.LeadingBlanks | codearea.py:139-141 | the count is the longest prefix of Python whitespace characters |
| Indent.WordLength | codearea.py:139 | the count is the longest prefix of non-whitespace characters |
| Indent.Find | codearea.py:141 | `find` returns the first offset where the word occurs, or -1 when it occurs nowhere |
| Indent.FirstWord | codearea.py:139-140 | `split()[0]` is the maximal run of non-whitespace after the leading blanks; there is none exactly when the block is all whitespace |
| Indent.FindFirstWord | codearea.py:139-141 | `find(split()[0])` is the number of leading blanks |
| Indent.IndentWidth | codearea.py:129-147 | the indent lies between 0 and the block length plus 4; its exact value is stated by IndentRepeatsLeadingBlanks |
| Indent.IndentRepeatsLeadingBlanks | codearea.py:129-147 | indent is 0 at a block start; otherwise the leading blanks (0 on a blank block) plus 4 after a colon |
| Documents.Locate | codearea.py:186-191 | the search stops at the first entry with the current id, or past the end when none has it |
| Documents.Clear | codearea.py:115-118 | table and selector emptied, buffer cleared, `docid` kept; properties in ClearThenNewKeepsStaleDocument |
| Documents.SaveCurrent | codearea.py:195-200 | the flush; properties in SaveCurrentEffect |
| Documents.SelectIndex | codearea.py:193 | Qt's `setCurrentIndex`; its effect is stated in SetTitleUnlisted (-1 on an empty selector) and SetTitleInvariants (the index stays in range) |
| Documents.SetTitle | codearea.py:168-193 | the retitle and selection; properties in SetTitleAt, SetTitleUnlisted, SetTitleKeepsIds, SetTitleInvariants |
| Documents.New | codearea.py:202-215 | a new empty document; properties in NewEffect and InitialNew |
| Documents.SwitchTo | codearea.py:217-224 | loading a document or raising KeyError after the flush; properties in SwitchToEffect |
| Documents.Add | codearea.py:226-232 | a new document holding a text; properties in AddEffect and AddThenSwitchBack |
| Documents.TextChanged | codearea.py:157-163 | buffer replaced and title re-derived; properties in TextChangedEffect |
| Documents.Promote | codearea.py:254-263 | the move up; properties in PromoteEffect, PromoteInvariants, PromoteThenDemote |
| Documents.Demote | codearea.py:265-275 | the move down; properties in DemoteEffect, DemoteInvariants, DemoteThenPromote |
| Documents.SaveCurrentEffect | codearea.py:195-200 | no-op without a current id; otherwise writes the buffer under it, keeps other keys, and is idempotent |
| Documents.SetTitleKeepsIds | codearea.py:186-193 | retitling changes no selector id and nothing outside the selector |
| Documents.SetTitleAt | codearea.py:183-193 | with the current id at position i, only entry i's title is replaced and i is selected |
| Documents.SetTitleUnlisted | codearea.py:186-193 | with the current id unlisted, no title is written and index count-1 is selected; an empty selector keeps index -1 |
| Documents.SetTitleInvariants | codearea.py:168-193 | `settitle` keeps WellFormed and Synced |
| Documents.TextChangedEffect | codearea.py:157-163 | after an edit the current entry shows the new first line's title; table, `docid`, index and every other entry are unchanged |
| Documents.InitialNew | codearea.py:104-113 | construction leaves one empty `Untitled` document, current and selected |
| Documents.ClearThenNewKeepsStaleDocument | codearea.py:115-118 | `clear` empties table and selector but keeps `docid`; the next `new` re-creates that key unlisted |
| Documents.NewEffect | codearea.py:202-215 | `new` flushes, empties the buffer, adds the fresh key with "", appends an `Untitled` entry at the end and selects it |
| Documents.SwitchToEffect | codearea.py:217-224 | KeyError exactly for an unknown id, after the flush; else keys unchanged, buffer and `docid` loaded, and from a Synced state the selector keeps its order and length with only the new current entry retitled from the first line |
| Documents.AddEffect | codearea.py:226-232 | `add(txt)` adds one key holding `txt`, current at the last position, titled after the first line |
| Documents.AddThenSwitchBack | codearea.py:217-232 | switching away from an added document and back loads `txt` again |
| Documents.MoveUpIsSwap | codearea.py:261-262 | removing the entry and inserting it one place up swaps it with its upper neighbour |
| Documents.MoveDownIsSwap | codearea.py:273-274 | removing the entry and inserting it one place down swaps it with its lower neighbour |
| Documents.PromoteEffect | codearea.py:254-263 | at index 0 only the flush happens; otherwise the (title, id) pair moves up and the selection follows |
| Documents.PromoteInvariants | codearea.py:254-263 | `promote` keeps WellFormed and Synced, and the entries are a permutation of the old ones |
| Documents.DemoteEffect | codearea.py:265-275 | at the last index only the flush happens; otherwise the pair moves down and the selection follows |
| Documents.DemoteInvariants | codearea.py:265-275 | `demote` keeps WellFormed and Synced, and the entries are a permutation of the old ones |
| Documents.PromoteThenDemote | codearea.py:254-275 | `promote` then `demote` off the top restores the selector order and index |
| Documents.DemoteThenPromote | codearea.py:254-275 | `demote` then `promote` off the bottom restores the selector order and index |
| Documents.StepEffect | codearea.py:202-232 | each `new`/`add` adds its own key, `switchto` adds none, and all keep Synced |
| Documents.RunCountsCreations | codearea.py:202-232 | from a Synced state, after any sequence of `new`/`add`/`switchto`, the table has grown by the number of `new`/`add` calls |
| CodeAreaWidget.CodeArea.constructor | codearea.py:104-113 | the new widget's state is `new` applied to the empty state, and it is Synced |
| CodeAreaWidget.CodeArea.Clear | codearea.py:115-118 | in place, the state becomes `Documents.Clear` of the old one |
| CodeAreaWidget.CodeArea.SetTitle | codearea.py:168-193 | the search loop leaves the state `Documents.SetTitle` describes |
| CodeAreaWidget.CodeArea.SaveCurrent | codearea.py:195-200 | in place, the state becomes `Documents.SaveCurrent` of the old one |
| CodeAreaWidget.CodeArea.New | codearea.py:202-215 | in place, the state becomes `Documents.New` of the old one, and Synced is kept |
| CodeAreaWidget.CodeArea.SwitchTo | codearea.py:217-224 | returns false exactly when the lookup raises KeyError; the state is `Documents.SwitchTo`'s |
| CodeAreaWidget.CodeArea.Add | codearea.py:226-232 | in place, the state becomes `Documents.Add` of the old one |
| CodeAreaWidget.CodeArea.TextChanged | codearea.py:157-163 | after an edit, the buffer holds the new text and the title follows its first line |
| CodeAreaWidget.CodeArea.SelectLine | codearea.py:234-252 | the loop accumulates the start offset of line n; the range [start, end) is line n when it exists |
| CodeAreaWidget.CodeArea.Promote | codearea.py:254-263 | in place, the state becomes `Documents.Promote` of the old one |
| CodeAreaWidget.CodeArea.Demote | codearea.py:265-275 | in place, the state becomes `Documents.Demote` of the old one |

## Left out

- `CodeFormatter` and `CodeHighlighter` (codearea.py:26-100): styling through the pygments library and Qt text formats, with no bookkeeping.
- Qt event dispatch in `keyPressEvent` is left out: key codes, the Control-modifier test routing Ctrl+Up/Down to `promote`/`demote`, the base-class key handling, `insertPlainText` of the indent, and the `_modified`/`setWindowModified` flag. The edited text enters as the parameter of `TextChanged`; the indent is computed from parameters (at block start, block text, character before the cursor).
- `QTextCursor` and `setTextCursor` in `selectline`: the model returns the two offsets instead of moving the cursor.
- `uuid.uuid4().hex`: the new id is a parameter required to be in neither the table nor the selector.
- `HighlightedTextEdit` (module `editor`) is not part of this model; its document is the string `buffer`, split into blocks at `'\n'` only (Qt's other paragraph separators are not modelled).
- The buffer keeps text exactly as given. Qt's `setPlainText`/`toPlainText` turn `"\r\n"`, `"\r"`, U+2028 and U+2029 into `"\n"` and U+00A0 into a space; that normalisation is not modelled. So `AddThenSwitchBack`'s `buffer == txt` is stated for the unnormalised text.
- CodeAreaWidget.CodeArea.SelectLine: offsets count characters (Unicode scalar values), while the source's `len(QString)` and cursor positions count UTF-16 code units. The offsets agree with the source's only for text inside the Basic Multilingual Plane.
- Signals the combo box may emit on `setCurrentIndex` (for example a handler that calls `switchto`) are connected outside this file and not modelled.
- The combo box is modelled as its list of entries and its current index. An empty box has index -1, initially, after `clear`, and after `setCurrentIndex(0)` on an empty box (`SelectIndex`). Qt's temporary index changes inside `removeItem`/`insertItem` are not modelled, since the code overwrites the index right after.
- `mselect` comes from the main window; the model assumes it is empty when the widget is constructed.
- Documents.Promote: defined only when the selector index is valid (guaranteed by WellFormed); the source's behaviour with an out-of-range index is not modelled.
- Documents.Demote: defined only when the selector index is valid (guaranteed by WellFormed); the source's behaviour with an out-of-range index is not modelled.
- doc/examples_src/multi_pynd/00002.py: a turtle animation with random floating-point speeds and an endless loop over an API that is not part of this model.
- lib/pynguin/conf.py: configuration constants only; the backup scheduling they parameterise is not part of this model.
