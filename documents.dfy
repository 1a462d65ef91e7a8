/**
  The document bookkeeping of `CodeArea` (codearea.py:103-275) as a value:
  the table of documents, the id of the current one, the selector (a combo box
  of title/id entries with a current index), the cached title and the text of
  the editing buffer. Each operation of the editor is one function from the
  state before to the state after; the class in codearea.dfy runs the same
  steps in place and is proved to agree with these functions.
*/
module Documents {

  import opened Options
  import opened Titles
  import opened Lines

  /** Document ids are the hex strings of randomly generated UUIDs. */
  type DocId = string

  /** One selector entry: the shown title and the document id stored as item data. */
  datatype Entry = Entry(title: string, id: DocId)

  datatype Area = Area(
    documents: map<DocId, string>,  // self.documents
    docid: Option<DocId>,           // self.docid
    cachedTitle: Option<string>,    // self.title
    entries: seq<Entry>,            // the items of self.mselect
    current: int,                   // self.mselect.currentIndex(); -1 when nothing is selected
    buffer: string)                 // self._doc.toPlainText()

  /** Result of `switchto`: it returns, or raises KeyError after the flush has already happened. */
  datatype Outcome = Done(after: Area) | KeyError(after: Area)

  function IdSet(entries: seq<Entry>): set<DocId> {
    set e | e in entries :: e.id
  }

  predicate DistinctIds(entries: seq<Entry>) {
    forall i, j :: 0 <= i < j < |entries| ==> entries[i].id != entries[j].id
  }

  /**
    What every operation keeps: selector ids are distinct and all in the table,
    the selector's index is valid (or -1 when there are no entries), and the cached
    title is never set.
  */
  predicate WellFormed(a: Area) {
    && DistinctIds(a.entries)
    && IdSet(a.entries) <= a.documents.Keys
    && SelectionInRange(a)
    && a.cachedTitle == None
  }

  /** The selector's index names an entry, or is -1 when there are none. */
  predicate SelectionInRange(a: Area) {
    if a.entries == [] then a.current == -1 else 0 <= a.current < |a.entries|
  }

  /**
    The index the combo box reports after `setCurrentIndex(i)`: `i` when an
    entry has that index, and -1 (no selection) otherwise.
  */
  function SelectIndex(entries: seq<Entry>, i: int): int {
    if 0 <= i < |entries| then i else -1
  }

  /**
    The selector lists exactly the documents of the table, and the selected
    entry is the current document. Every operation but `clear` keeps this.
  */
  predicate Synced(a: Area) {
    && WellFormed(a)
    && IdSet(a.entries) == a.documents.Keys
    && (a.docid.Some? ==> 0 <= a.current < |a.entries| && a.entries[a.current].id == a.docid.value)
  }

  /** A freshly generated id: used neither in the table nor in the selector. */
  predicate Unused(a: Area, id: DocId) {
    id !in a.documents && id !in IdSet(a.entries)
  }

  /** The state `__init__` sets up before it calls `new`: empty table and selector, no current document. */
  function Initial(): Area {
    Area(map[], None, None, [], -1, "")
  }

  /** `clear` (codearea.py:115-118): empties buffer, table and selector, and keeps `docid`. */
  function Clear(a: Area): Area {
    a.(buffer := "", documents := map[], entries := [], current := -1)
  }

  /** `savecurrent` (codearea.py:195-200) */
  function SaveCurrent(a: Area): Area {
    if a.docid.None? then a
    else a.(documents := a.documents[a.docid.value := a.buffer])
  }

  /**
    Where the loop of `settitle` stops: the first entry whose id is the current
    document's, or the number of entries when there is none.
  */
  function Locate(entries: seq<Entry>, docid: Option<DocId>): (k: nat)
    ensures k <= |entries|
    ensures k < |entries| ==> Some(entries[k].id) == docid
    ensures forall j :: 0 <= j < k ==> Some(entries[j].id) != docid
  {
    if entries == [] then 0
    else if Some(entries[0].id) == docid then 0
    else 1 + Locate(entries[1..], docid)
  }

  /**
    `settitle` (codearea.py:168-193): derive the title from `line`, write it
    into the current document's entry and select that entry. When no entry
    matches, the loop variable is left at the last index (0 when there are none)
    and that index is selected.
  */
  function SetTitle(a: Area, line: string): Area {
    var title := DeriveTitle(line);
    if Some(title) == a.cachedTitle then a
    else
      var k := Locate(a.entries, a.docid);
      if k < |a.entries| then
        a.(entries := a.entries[k := Entry(title, a.entries[k].id)], current := SelectIndex(a.entries, k))
      else
        a.(current := SelectIndex(a.entries, if |a.entries| > 0 then |a.entries| - 1 else 0))
  }

  /** `new` (codearea.py:202-215), with `newId` standing for `uuid.uuid4().hex`. */
  function New(a: Area, newId: DocId): Area {
    var s := SaveCurrent(a);
    var added := s.(buffer := "", entries := s.entries + [Entry("", newId)], documents := s.documents[newId := ""]);
    SetTitle(added.(current := |added.entries| - 1, docid := Some(newId)), "")
  }

  /** `switchto` (codearea.py:217-224): flush, then look `id` up, which raises KeyError when it is missing. */
  function SwitchTo(a: Area, id: DocId): Outcome {
    var s := SaveCurrent(a);
    if id !in s.documents then KeyError(s)
    else
      var text := s.documents[id];
      Done(SetTitle(s.(docid := Some(id), buffer := text), FirstLine(text)))
  }

  /** `add` (codearea.py:226-232): a new document whose text is `txt`. */
  function Add(a: Area, txt: string, newId: DocId): Area {
    var n := New(a, newId);
    SaveCurrent(SetTitle(n.(buffer := txt), FirstLine(txt)))
  }

  /** After a key press the buffer holds `text` and the title follows its first block (codearea.py:157-163). */
  function TextChanged(a: Area, text: string): Area {
    SetTitle(a.(buffer := text), FirstLine(text))
  }

  function RemoveAt(s: seq<Entry>, i: nat): seq<Entry>
    requires i < |s|
  {
    s[..i] + s[i + 1..]
  }

  function InsertAt(s: seq<Entry>, i: nat, e: Entry): seq<Entry>
    requires i <= |s|
  {
    s[..i] + [e] + s[i..]
  }

  /** `s` with the entries at `i` and `i + 1` exchanged. */
  function Swap(s: seq<Entry>, i: nat): seq<Entry>
    requires i + 1 < |s|
  {
    s[i := s[i + 1]][i + 1 := s[i]]
  }

  /** `promote` (codearea.py:254-263): move the selected entry one place up, unless it is first. */
  function Promote(a: Area): Area
    requires SelectionInRange(a)
  {
    var s := SaveCurrent(a);
    var idx := s.current;
    if idx > 0 then
      var moved := s.entries[idx];
      s.(entries := InsertAt(RemoveAt(s.entries, idx), idx - 1, moved), current := idx - 1)
    else s
  }

  /** `demote` (codearea.py:265-275): move the selected entry one place down, unless it is last. */
  function Demote(a: Area): Area
    requires SelectionInRange(a)
  {
    var s := SaveCurrent(a);
    var idx := s.current;
    assert s.entries == a.entries && idx == a.current;
    if idx < |s.entries| - 1 then
      var moved := s.entries[idx];
      s.(entries := InsertAt(RemoveAt(s.entries, idx), idx + 1, moved), current := idx + 1)
    else s
  }

  // ---------------------------------------------------------------------------
  // savecurrent

  /**
    Flushing writes the buffer under the current id and changes no other key
    and nothing but the table; without a current document it does nothing;
    a second flush changes nothing.
  */
  lemma SaveCurrentEffect(a: Area)
    ensures SaveCurrent(a).(documents := a.documents) == a
    ensures a.docid.None? ==> SaveCurrent(a) == a
    ensures a.docid.Some? ==>
      && SaveCurrent(a).documents.Keys == a.documents.Keys + {a.docid.value}
      && SaveCurrent(a).documents[a.docid.value] == a.buffer
    ensures forall k :: k in a.documents && Some(k) != a.docid ==>
      k in SaveCurrent(a).documents && SaveCurrent(a).documents[k] == a.documents[k]
    ensures SaveCurrent(SaveCurrent(a)) == SaveCurrent(a)
    ensures WellFormed(a) ==> WellFormed(SaveCurrent(a))
    ensures Synced(a) ==> Synced(SaveCurrent(a)) && SaveCurrent(a).documents.Keys == a.documents.Keys
  {
  }

  // ---------------------------------------------------------------------------
  // settitle

  /** Selector ids never change when a title is written. */
  lemma SetTitleKeepsIds(a: Area, line: string)
    ensures var r := SetTitle(a, line);
      && |r.entries| == |a.entries|
      && (forall j :: 0 <= j < |a.entries| ==> r.entries[j].id == a.entries[j].id)
      && IdSet(r.entries) == IdSet(a.entries)
      && r.(entries := a.entries, current := a.current) == a
  {
    var r := SetTitle(a, line);
    forall j | 0 <= j < |a.entries| ensures r.entries[j].id == a.entries[j].id { }
    assert IdSet(r.entries) == IdSet(a.entries) by {
      forall x | x in IdSet(a.entries) ensures x in IdSet(r.entries) {
        var j :| 0 <= j < |a.entries| && a.entries[j].id == x;
        assert r.entries[j] in r.entries;
      }
      forall x | x in IdSet(r.entries) ensures x in IdSet(a.entries) {
        var j :| 0 <= j < |r.entries| && r.entries[j].id == x;
        assert a.entries[j] in a.entries;
      }
    }
  }

  /**
    When the current document sits at position `i`, `settitle` replaces entry
    `i`'s title, selects `i`, and leaves every id and every other entry alone.
  */
  lemma SetTitleAt(a: Area, line: string, i: int)
    requires WellFormed(a) && 0 <= i < |a.entries| && a.docid == Some(a.entries[i].id)
    ensures SetTitle(a, line) == a.(entries := a.entries[i := Entry(DeriveTitle(line), a.entries[i].id)], current := i)
  {
  }

  /**
    When the current document has no entry, no title is written, and the last
    entry becomes selected; an empty selector keeps no selection, since
    `setCurrentIndex(0)` finds no entry there.
  */
  lemma SetTitleUnlisted(a: Area, line: string)
    requires WellFormed(a) && (a.docid.None? || a.docid.value !in IdSet(a.entries))
    ensures SetTitle(a, line) == a.(current := if |a.entries| > 0 then |a.entries| - 1 else -1)
  {
  }

  /** `settitle` keeps both invariants. */
  lemma SetTitleInvariants(a: Area, line: string)
    ensures WellFormed(a) ==> WellFormed(SetTitle(a, line))
    ensures Synced(a) ==> Synced(SetTitle(a, line))
  {
    SetTitleKeepsIds(a, line);
    if Synced(a) && a.docid.Some? {
      SetTitleAt(a, line, a.current);
    }
  }

  /**
    After an edit the current document's entry is titled after the new first
    line, while the table still holds the text of the last flush.
  */
  lemma TextChangedEffect(a: Area, text: string)
    requires Synced(a) && a.docid.Some?
    ensures var r := TextChanged(a, text);
      && Synced(r)
      && r.documents == a.documents
      && r.buffer == text
      && r.current == a.current
      && r.entries == a.entries[a.current := Entry(DeriveTitle(FirstLine(text)), a.docid.value)]
      && r.(entries := a.entries, buffer := a.buffer) == a
  {
    SetTitleAt(a.(buffer := text), FirstLine(text), a.current);
    SetTitleInvariants(a.(buffer := text), FirstLine(text));
  }

  /** `__init__` ends with one empty document, titled "Untitled", selected and current. */
  lemma InitialNew(newId: DocId)
    ensures New(Initial(), newId) == Area(map[newId := ""], Some(newId), None, [Entry(Placeholder, newId)], 0, "")
    ensures Synced(New(Initial(), newId))
  {
    NewEffect(Initial(), newId);
  }

  // ---------------------------------------------------------------------------
  // clear

  /**
    `clear` empties the table and the selector but leaves `docid` set. The
    next `new` flushes the emptied buffer under that stale id, so the table
    holds a document that no selector entry lists.
  */
  lemma ClearThenNewKeepsStaleDocument(a: Area, newId: DocId)
    requires WellFormed(a) && a.docid.Some? && newId != a.docid.value
    ensures Clear(a).documents == map[] && Clear(a).entries == [] && Clear(a).docid == a.docid
    ensures WellFormed(Clear(a))
    ensures New(Clear(a), newId).documents == map[a.docid.value := "", newId := ""]
    ensures New(Clear(a), newId).entries == [Entry(Placeholder, newId)]
    ensures !Synced(New(Clear(a), newId))
  {
    var c := Clear(a);
    var s := SaveCurrent(c);
    var added := s.(buffer := "", entries := s.entries + [Entry("", newId)], documents := s.documents[newId := ""]);
    SetTitleAt(added.(current := 0, docid := Some(newId)), "", 0);
    assert a.docid.value in New(c, newId).documents.Keys;
  }

  // ---------------------------------------------------------------------------
  // new

  /**
    `new` flushes the previous buffer, empties the buffer, adds exactly the
    newId key mapped to the empty text, and appends one entry titled
    "Untitled" for it, which becomes current at the last position.
  */
  lemma NewEffect(a: Area, newId: DocId)
    requires WellFormed(a) && Unused(a, newId)
    ensures var r := New(a, newId);
      && WellFormed(r)
      && r.documents == SaveCurrent(a).documents[newId := ""]
      && r.entries == a.entries + [Entry(Placeholder, newId)]
      && r.current == |a.entries|
      && r.docid == Some(newId)
      && r.buffer == ""
    ensures Synced(a) ==> Synced(New(a, newId)) && |New(a, newId).documents| == |a.documents| + 1
  {
    var s := SaveCurrent(a);
    SaveCurrentEffect(a);
    var b := s.(buffer := "", entries := a.entries + [Entry("", newId)], documents := s.documents[newId := ""],
                current := |a.entries|, docid := Some(newId));
    assert New(a, newId) == SetTitle(b, "");
    AppendFresh(a.entries, Entry("", newId));
    SetTitleAt(b, "", |a.entries|);
    assert b.entries[|a.entries| := Entry(Placeholder, newId)] == a.entries + [Entry(Placeholder, newId)];
    AppendFresh(a.entries, Entry(Placeholder, newId));
  }

  /** Appending an entry with an unlisted id keeps the ids distinct and adds that id. */
  lemma AppendFresh(entries: seq<Entry>, e: Entry)
    requires e.id !in IdSet(entries)
    ensures DistinctIds(entries) ==> DistinctIds(entries + [e])
    ensures IdSet(entries + [e]) == IdSet(entries) + {e.id}
  {
    var r := entries + [e];
    if DistinctIds(entries) {
      forall p, q | 0 <= p < q < |r| ensures r[p].id != r[q].id {
        if q == |entries| {
          assert r[p] in entries;
        }
      }
    }
    assert forall x :: x in r <==> x in entries || x == e;
  }

  // ---------------------------------------------------------------------------
  // switchto

  /**
    `switchto(id)` fails exactly when `id` is not in the (flushed) table, and
    then only the flush has happened. Otherwise the table is the flushed one,
    `id` is current, the buffer holds its text, and its title follows its
    first line.
  */
  lemma SwitchToEffect(a: Area, id: DocId)
    requires WellFormed(a)
    ensures var s := SaveCurrent(a); var o := SwitchTo(a, id);
      && (o.KeyError? <==> id !in s.documents)
      && (o.KeyError? ==> o.after == s)
      && WellFormed(o.after)
      && o.after.documents == s.documents
      && IdSet(o.after.entries) == IdSet(a.entries)
      && (o.Done? ==> o.after.docid == Some(id) && o.after.buffer == s.documents[id])
    ensures Synced(a) ==>
      var o := SwitchTo(a, id);
      && Synced(o.after)
      && o.after.documents.Keys == a.documents.Keys
      && (o.Done? ==> o.after.entries[o.after.current] == Entry(DeriveTitle(FirstLine(o.after.buffer)), id))
      && (o.Done? ==> o.after.entries == a.entries[o.after.current := Entry(DeriveTitle(FirstLine(o.after.buffer)), id)])
  {
    var s := SaveCurrent(a);
    SaveCurrentEffect(a);
    if id in s.documents {
      var b := s.(docid := Some(id), buffer := s.documents[id]);
      SetTitleInvariants(b, FirstLine(b.buffer));
      SetTitleKeepsIds(b, FirstLine(b.buffer));
      if Synced(a) {
        var i :| 0 <= i < |b.entries| && b.entries[i].id == id;
        SetTitleAt(b, FirstLine(b.buffer), i);
      }
    }
  }

  // ---------------------------------------------------------------------------
  // add

  /**
    `add(txt)` creates one newId document holding `txt`, current at the last
    selector position, titled after the first line of `txt`.
  */
  lemma AddEffect(a: Area, txt: string, newId: DocId)
    requires WellFormed(a) && Unused(a, newId)
    ensures var r := Add(a, txt, newId);
      && WellFormed(r)
      && r.documents == SaveCurrent(a).documents[newId := txt]
      && r.entries == a.entries + [Entry(DeriveTitle(FirstLine(txt)), newId)]
      && r.current == |a.entries|
      && r.docid == Some(newId)
      && r.buffer == txt
    ensures Synced(a) ==> Synced(Add(a, txt, newId)) && |Add(a, txt, newId).documents| == |a.documents| + 1
  {
    NewEffect(a, newId);
    var n := New(a, newId);
    SetTitleAt(n.(buffer := txt), FirstLine(txt), |a.entries|);
  }

  /** Switching away from a document made by `add(txt)` and back gives `txt` again. */
  lemma AddThenSwitchBack(a: Area, txt: string, newId: DocId, other: DocId)
    requires WellFormed(a) && Unused(a, newId)
    requires other in Add(a, txt, newId).documents
    ensures var away := SwitchTo(Add(a, txt, newId), other);
      && away.Done?
      && SwitchTo(away.after, newId).Done?
      && SwitchTo(away.after, newId).after.buffer == txt
  {
    AddEffect(a, txt, newId);
    var b := Add(a, txt, newId);
    SwitchToEffect(b, other);
    var away := SwitchTo(b, other).after;
    SwitchToEffect(away, newId);
  }

  // ---------------------------------------------------------------------------
  // promote and demote

  /** Taking an entry out and putting it back one place up exchanges it with its upper neighbour. */
  lemma MoveUpIsSwap(s: seq<Entry>, i: nat)
    requires 0 < i < |s|
    ensures InsertAt(RemoveAt(s, i), i - 1, s[i]) == Swap(s, i - 1)
  {
    var r := InsertAt(RemoveAt(s, i), i - 1, s[i]);
    assert |r| == |s|;
    forall j | 0 <= j < |s| ensures r[j] == Swap(s, i - 1)[j] {
      if j < i - 1 {
        assert r[j] == s[j];
      } else if j > i {
        assert r[j] == RemoveAt(s, i)[j - 1];
      }
    }
  }

  /** Taking an entry out and putting it back one place down exchanges it with its lower neighbour. */
  lemma MoveDownIsSwap(s: seq<Entry>, i: nat)
    requires i + 1 < |s|
    ensures InsertAt(RemoveAt(s, i), i + 1, s[i]) == Swap(s, i)
  {
    var r := InsertAt(RemoveAt(s, i), i + 1, s[i]);
    assert |r| == |s|;
    forall j | 0 <= j < |s| ensures r[j] == Swap(s, i)[j] {
      if j < i {
        assert r[j] == s[j];
      } else if j == i {
        assert r[j] == RemoveAt(s, i)[i];
      } else if j > i + 1 {
        assert r[j] == RemoveAt(s, i)[j - 1];
      }
    }
  }

  /** Exchanging two neighbours keeps the entries, keeps their ids distinct, and keeps the set of ids. */
  lemma SwapKeepsEntries(s: seq<Entry>, i: nat)
    requires i + 1 < |s|
    ensures multiset(Swap(s, i)) == multiset(s)
    ensures DistinctIds(s) ==> DistinctIds(Swap(s, i))
    ensures IdSet(Swap(s, i)) == IdSet(s)
  {
    var r := Swap(s, i);
    assert multiset(s[i := s[i + 1]]) == multiset(s) - multiset{s[i]} + multiset{s[i + 1]};
    assert forall e :: e in r <==> e in s by {
      forall e ensures e in r <==> e in s {
        assert e in r <==> multiset(r)[e] > 0;
        assert e in s <==> multiset(s)[e] > 0;
      }
    }
    if DistinctIds(s) {
      forall p, q | 0 <= p < q < |r| ensures r[p].id != r[q].id {
        var p' := if p == i then i + 1 else if p == i + 1 then i else p;
        var q' := if q == i then i + 1 else if q == i + 1 then i else q;
        assert r[p] == s[p'] && r[q] == s[q'] && p' != q';
      }
    }
  }

  /**
    `promote` at the top changes nothing but the flush. Otherwise it exchanges
    the selected entry with the one above (the title travels with its id) and
    the selection follows it.
  */
  lemma PromoteEffect(a: Area)
    requires WellFormed(a)
    ensures Promote(a).(entries := a.entries, current := a.current) == SaveCurrent(a)
    ensures a.current <= 0 ==> Promote(a) == SaveCurrent(a)
    ensures a.current > 0 ==>
      && Promote(a).entries == Swap(a.entries, a.current - 1)
      && Promote(a).current == a.current - 1
      && Promote(a).entries[a.current - 1] == a.entries[a.current]
  {
    if a.current > 0 {
      MoveUpIsSwap(a.entries, a.current);
    }
  }

  /** `promote` keeps both invariants, and the entries stay a permutation of the old ones. */
  lemma PromoteInvariants(a: Area)
    requires WellFormed(a)
    ensures WellFormed(Promote(a))
    ensures multiset(Promote(a).entries) == multiset(a.entries)
    ensures Synced(a) ==> Synced(Promote(a))
  {
    var r := Promote(a);
    PromoteEffect(a);
    SaveCurrentEffect(a);
    assert r.documents == SaveCurrent(a).documents && r.docid == a.docid && r.cachedTitle == a.cachedTitle;
    if a.current > 0 {
      SwapKeepsEntries(a.entries, a.current - 1);
      assert r.entries == Swap(a.entries, a.current - 1) && r.current == a.current - 1;
      assert r.entries[r.current].id == a.entries[a.current].id;
    }
  }

  /**
    `demote` at the bottom changes nothing but the flush. Otherwise it exchanges
    the selected entry with the one below and the selection follows it.
  */
  lemma DemoteEffect(a: Area)
    requires WellFormed(a)
    ensures Demote(a).(entries := a.entries, current := a.current) == SaveCurrent(a)
    ensures a.current >= |a.entries| - 1 ==> Demote(a) == SaveCurrent(a)
    ensures a.current < |a.entries| - 1 ==>
      && Demote(a).entries == Swap(a.entries, a.current)
      && Demote(a).current == a.current + 1
      && Demote(a).entries[a.current + 1] == a.entries[a.current]
  {
    if a.current < |a.entries| - 1 {
      MoveDownIsSwap(a.entries, a.current);
    }
  }

  /** `demote` keeps both invariants, and the entries stay a permutation of the old ones. */
  lemma DemoteInvariants(a: Area)
    requires WellFormed(a)
    ensures WellFormed(Demote(a))
    ensures multiset(Demote(a).entries) == multiset(a.entries)
    ensures Synced(a) ==> Synced(Demote(a))
  {
    var r := Demote(a);
    DemoteEffect(a);
    SaveCurrentEffect(a);
    assert r.documents == SaveCurrent(a).documents && r.docid == a.docid && r.cachedTitle == a.cachedTitle;
    if a.current < |a.entries| - 1 {
      SwapKeepsEntries(a.entries, a.current);
      assert r.entries == Swap(a.entries, a.current) && r.current == a.current + 1;
      assert r.entries[r.current].id == a.entries[a.current].id;
    }
  }

  /** Exchanging the same neighbours twice gives the original order back. */
  lemma SwapTwice(s: seq<Entry>, i: nat)
    requires i + 1 < |s|
    ensures Swap(Swap(s, i), i) == s
  {
  }

  /** Promoting a document that is not first and demoting it again restores the selector. */
  lemma PromoteThenDemote(a: Area)
    requires WellFormed(a) && a.current > 0
    ensures Demote(Promote(a)).entries == a.entries
    ensures Demote(Promote(a)).current == a.current
    ensures Demote(Promote(a)).documents == SaveCurrent(a).documents
  {
    PromoteEffect(a);
    PromoteInvariants(a);
    var p := Promote(a);
    assert p.entries == Swap(a.entries, a.current - 1) && p.current == a.current - 1;
    assert p == SaveCurrent(a).(entries := p.entries, current := p.current);
    SaveCurrentEffect(a);
    assert SaveCurrent(p).documents == p.documents;
    DemoteEffect(p);
    SwapTwice(a.entries, a.current - 1);
  }

  /** Demoting a document that is not last and promoting it again restores the selector. */
  lemma DemoteThenPromote(a: Area)
    requires WellFormed(a) && 0 <= a.current < |a.entries| - 1
    ensures Promote(Demote(a)).entries == a.entries
    ensures Promote(Demote(a)).current == a.current
    ensures Promote(Demote(a)).documents == SaveCurrent(a).documents
  {
    DemoteEffect(a);
    DemoteInvariants(a);
    var d := Demote(a);
    assert d.entries == Swap(a.entries, a.current) && d.current == a.current + 1;
    assert d == SaveCurrent(a).(entries := d.entries, current := d.current);
    SaveCurrentEffect(a);
    assert SaveCurrent(d).documents == d.documents;
    PromoteEffect(d);
    SwapTwice(a.entries, a.current);
  }


  // ---------------------------------------------------------------------------
  // sequences of calls

  /** A call that creates or loads a document; a failed switch leaves the flushed state behind. */
  datatype Call = NewCall(newId: DocId) | AddCall(text: string, newId: DocId) | SwitchCall(id: DocId)

  function Step(a: Area, c: Call): Area {
    match c
    case NewCall(id) => New(a, id)
    case AddCall(text, id) => Add(a, text, id)
    case SwitchCall(id) => SwitchTo(a, id).after
  }

  function Run(a: Area, calls: seq<Call>): Area
    decreases |calls|
  {
    if calls == [] then a else Run(Step(a, calls[0]), calls[1..])
  }

  /** The ids generated by the `new` and `add` calls of `calls`, in order. */
  function Created(calls: seq<Call>): seq<DocId> {
    if calls == [] then []
    else if calls[0].SwitchCall? then Created(calls[1..])
    else [calls[0].newId] + Created(calls[1..])
  }

  /** The generated ids are pairwise different and none is already in the table. */
  predicate FreshIds(a: Area, calls: seq<Call>) {
    Distinct(Created(calls)) && NoneIn(Created(calls), a.documents.Keys)
  }

  predicate Distinct(ids: seq<DocId>) {
    forall i, j :: 0 <= i < j < |ids| ==> ids[i] != ids[j]
  }

  predicate NoneIn(ids: seq<DocId>, keys: set<DocId>) {
    forall i :: 0 <= i < |ids| ==> ids[i] !in keys
  }

  /** One call adds the key it creates, if any, and keeps the selector in step with the table. */
  lemma StepEffect(a: Area, c: Call)
    requires Synced(a)
    requires !c.SwitchCall? ==> c.newId !in a.documents
    ensures Synced(Step(a, c))
    ensures Step(a, c).documents.Keys == if c.SwitchCall? then a.documents.Keys else a.documents.Keys + {c.newId}
  {
    SaveCurrentEffect(a);
    match c
    case NewCall(id) => NewEffect(a, id);
    case AddCall(text, id) => AddEffect(a, text, id);
    case SwitchCall(id) => SwitchToEffect(a, id);
  }

  /**
    Starting from a state whose selector lists exactly its table, every `new`
    and `add` adds one document and `switchto` adds none: the table grows by
    the number of creating calls.
  */
  lemma {:induction false} RunCountsCreations(a: Area, calls: seq<Call>)
    requires Synced(a) && FreshIds(a, calls)
    ensures Synced(Run(a, calls))
    ensures |Run(a, calls).documents| == |a.documents| + |Created(calls)|
    decreases |calls|
  {
    if calls != [] {
      var c := calls[0];
      var b := Step(a, c);
      assert !c.SwitchCall? ==> Created(calls)[0] == c.newId;
      StepEffect(a, c);
      FreshAfterStep(a.documents.Keys, b.documents.Keys, calls);
      RunCountsCreations(b, calls[1..]);
      assert Run(a, calls) == Run(b, calls[1..]);
      assert |b.documents| == |a.documents| + (if c.SwitchCall? then 0 else 1) by {
        assert |b.documents| == |b.documents.Keys|;
      }
    }
  }

  /** The ids still to be generated after the first call are fresh for the table that call leaves. */
  lemma FreshAfterStep(before: set<DocId>, after: set<DocId>, calls: seq<Call>)
    requires calls != []
    requires after == if calls[0].SwitchCall? then before else before + {calls[0].newId}
    requires Distinct(Created(calls)) && NoneIn(Created(calls), before)
    ensures Distinct(Created(calls[1..])) && NoneIn(Created(calls[1..]), after)
  {
    var ids := Created(calls);
    var rest := Created(calls[1..]);
    var shift := if calls[0].SwitchCall? then 0 else 1;
    assert ids == if calls[0].SwitchCall? then rest else [calls[0].newId] + rest;
    assert forall i :: 0 <= i < |rest| ==> rest[i] == ids[i + shift];
    forall i | 0 <= i < |rest| ensures rest[i] !in after {
      if shift == 1 {
        assert ids[0] == calls[0].newId && ids[0] != ids[i + 1];
      }
    }
    forall i, j | 0 <= i < j < |rest| ensures rest[i] != rest[j] {
      assert ids[i + shift] != ids[j + shift];
    }
  }

}
