/**
  The editor widget `CodeArea` (codearea.py:103-275) with the fields its
  methods update in place. The combo box `mselect` is held as its list of
  entries and its current index; the text document `_doc` as its plain text.
  Every method performs the steps of the Python method in the same order and
  is proved to leave the state that the matching function of `Documents`
  describes, so the lemmas proved there hold of the widget as well.
*/
module CodeAreaWidget {

  import opened Options
  import opened Titles
  import opened Lines
  import D = Documents

  class CodeArea {
    var documents: map<D.DocId, string>
    var docid: Option<D.DocId>
    var title: Option<string>
    var entries: seq<D.Entry>
    var current: int
    var buffer: string

    /** The state as a value. */
    function Abs(): D.Area
      reads this
    {
      D.Area(documents, docid, title, entries, current, buffer)
    }

    ghost predicate Valid()
      reads this
    {
      D.WellFormed(Abs())
    }

    /** `__init__`: empty table, no title, no current document, then `new()`; the selector starts empty. */
    constructor (newId: D.DocId)
      ensures Valid()
      ensures Abs() == D.New(D.Initial(), newId)
      ensures D.Synced(Abs())
    {
      documents := map[];
      title := None;
      docid := None;
      entries := [];
      current := -1;
      buffer := "";
      new;
      New(newId);
    }

    /** `clear` */
    method Clear()
      requires Valid()
      modifies this
      ensures Valid()
      ensures Abs() == D.Clear(old(Abs()))
    {
      buffer := "";
      documents := map[];
      entries := [];
      current := -1;
    }

    /** `settitle`: search the selector for the current document's entry, retitle it and select it. */
    method SetTitle(line: string)
      requires Valid()
      modifies this
      ensures Valid()
      ensures Abs() == D.SetTitle(old(Abs()), line)
    {
      D.SetTitleInvariants(Abs(), line);
      var newTitle := DeriveTitle(line);
      if Some(newTitle) == title {
        return;
      }
      var idx := 0;
      var i := 0;
      while i < |entries|
        invariant 0 <= i <= |entries|
        invariant entries == old(entries)
        invariant idx == if i == 0 then 0 else i - 1
        invariant forall j :: 0 <= j < i ==> Some(entries[j].id) != docid
      {
        idx := i;
        if Some(entries[i].id) == docid {
          entries := entries[i := D.Entry(newTitle, entries[i].id)];
          break;
        }
        i := i + 1;
      }
      current := D.SelectIndex(entries, idx);
    }

    /** `savecurrent` */
    method SaveCurrent()
      requires Valid()
      modifies this
      ensures Valid()
      ensures Abs() == D.SaveCurrent(old(Abs()))
    {
      D.SaveCurrentEffect(Abs());
      if docid.Some? {
        documents := documents[docid.value := buffer];
      }
    }

    /** `new`, with `newId` for the generated UUID. */
    method New(newId: D.DocId)
      requires Valid() && D.Unused(Abs(), newId)
      modifies this
      ensures Valid()
      ensures Abs() == D.New(old(Abs()), newId)
      ensures D.Synced(old(Abs())) ==> D.Synced(Abs())
    {
      D.NewEffect(Abs(), newId);
      SaveCurrent();
      buffer := "";
      D.AppendFresh(entries, D.Entry("", newId));
      entries := entries + [D.Entry("", newId)];
      documents := documents[newId := ""];
      current := |entries| - 1;
      docid := Some(newId);
      SetTitle("");
    }

    /** `switchto`: `found` is false when the lookup raises KeyError, after the flush. */
    method SwitchTo(id: D.DocId) returns (found: bool)
      requires Valid()
      modifies this
      ensures Valid()
      ensures found == D.SwitchTo(old(Abs()), id).Done?
      ensures Abs() == D.SwitchTo(old(Abs()), id).after
    {
      D.SwitchToEffect(Abs(), id);
      SaveCurrent();
      if id !in documents {
        return false;
      }
      var text := documents[id];
      docid := Some(id);
      buffer := text;
      SetTitle(FirstLine(text));
      found := true;
    }

    /** `add` */
    method Add(txt: string, newId: D.DocId)
      requires Valid() && D.Unused(Abs(), newId)
      modifies this
      ensures Valid()
      ensures Abs() == D.Add(old(Abs()), txt, newId)
    {
      D.AddEffect(Abs(), txt, newId);
      New(newId);
      buffer := txt;
      SetTitle(FirstLine(txt));
      SaveCurrent();
    }

    /** The part of `keyPressEvent` after the key has been handled: the buffer now holds `text`. */
    method TextChanged(text: string)
      requires Valid()
      modifies this
      ensures Valid()
      ensures Abs() == D.TextChanged(old(Abs()), text)
    {
      buffer := text;
      SetTitle(FirstLine(buffer));
    }

    /**
      `selectline(n)`: the offsets the cursor is set to. Line `n`, when it
      exists, is exactly the selected range of the text.
    */
    method SelectLine(n: int) returns (start: nat, end: nat)
      ensures start == LineStart(Split(buffer), n)
      ensures end == start + |BlockText(Split(buffer), if n < 1 then 1 else n)|
      ensures 1 <= n <= |Split(buffer)| ==> end <= |buffer| && buffer[start..end] == Split(buffer)[n - 1]
    {
      var blocks := Split(buffer);
      var line := 1;
      start := 0;
      while line < n
        invariant 1 <= line <= if n < 1 then 1 else n
        invariant start == LineStart(blocks, line)
      {
        start := start + |BlockText(blocks, line)| + 1;
        line := line + 1;
      }
      end := start + |BlockText(blocks, line)|;
      if 1 <= n <= |blocks| {
        SelectionIsLine(buffer, n);
      }
    }

    /** `promote` */
    method Promote()
      requires Valid()
      modifies this
      ensures Valid()
      ensures Abs() == D.Promote(old(Abs()))
    {
      D.PromoteInvariants(Abs());
      SaveCurrent();
      var idx := current;
      if idx > 0 {
        var moved := entries[idx];
        entries := D.RemoveAt(entries, idx);
        entries := D.InsertAt(entries, idx - 1, moved);
        current := idx - 1;
      }
    }

    /** `demote` */
    method Demote()
      requires Valid()
      modifies this
      ensures Valid()
      ensures Abs() == D.Demote(old(Abs()))
    {
      D.DemoteInvariants(Abs());
      SaveCurrent();
      var idx := current;
      var count := |entries|;
      if idx < count - 1 {
        var moved := entries[idx];
        entries := D.RemoveAt(entries, idx);
        entries := D.InsertAt(entries, idx + 1, moved);
        current := idx + 1;
      }
    }
  }

}
