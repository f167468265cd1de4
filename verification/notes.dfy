/**
 * The flat note list: notes are appended, removed by id and replaced by id, and a
 * note is selected by the first one carrying an id. Note ids are not unique by
 * construction, so every operation acts on all notes with the id (or the first).
 */
module Notes {
  import opened Seqs

  const PRIVATE: string := "Private"
  const PUBLIC: string := "Public"

  /** A note attached to the chart node `nodeId`; `kind` is its type ("Private" or "Public"). */
  datatype Note = Note(id: string, title: string, text: string, kind: string, addedBy: string, dateAdded: string, nodeId: string)

  /** The ids of a note list, in order. */
  function NoteIds(notes: seq<Note>): seq<string> {
    seq(|notes|, i requires 0 <= i < |notes| => notes[i].id)
  }

  /** How many notes carry the id. */
  function CountId(notes: seq<Note>, id: string): nat {
    if notes == [] then 0 else (if notes[0].id == id then 1 else 0) + CountId(notes[1..], id)
  }

  /** The notes without those carrying `id`, in their original order. */
  function RemoveNotes(notes: seq<Note>, id: string): (r: seq<Note>)
    ensures IsSubsequence(r, notes)
    ensures forall n :: n in r <==> n in notes && n.id != id
    ensures |r| + CountId(notes, id) == |notes|
  {
    if notes == [] then []
    else
      var rest := RemoveNotes(notes[1..], id);
      SubsequenceCons(notes[0], rest, notes[1..]);
      assert notes == [notes[0]] + notes[1..];
      if notes[0].id == id then rest else [notes[0]] + rest
  }

  /** Every note carrying the id of `updated` replaced by it; the others left in place. */
  function ReplaceNotes(notes: seq<Note>, updated: Note): (r: seq<Note>)
    ensures |r| == |notes|
    ensures forall i :: 0 <= i < |notes| && notes[i].id == updated.id ==> r[i] == updated
    ensures forall i :: 0 <= i < |notes| && notes[i].id != updated.id ==> r[i] == notes[i]
  {
    seq(|notes|, i requires 0 <= i < |notes| => if notes[i].id == updated.id then updated else notes[i])
  }

  /** The first note carrying the id, if any. */
  function FindNote(notes: seq<Note>, id: string): (r: Option<Note>)
    ensures r.Some? ==> exists i :: 0 <= i < |notes| && notes[i] == r.value && r.value.id == id
                                    && forall k :: 0 <= k < i ==> notes[k].id != id
    ensures r.None? <==> forall k :: 0 <= k < |notes| ==> notes[k].id != id
  {
    if notes == [] then None
    else if notes[0].id == id then Some(notes[0])
    else
      var r := FindNote(notes[1..], id);
      assert forall k :: 1 <= k < |notes| ==> notes[k] == notes[1..][k - 1];
      if r.Some? then
        var i :| 0 <= i < |notes[1..]| && notes[1..][i] == r.value && r.value.id == id
                 && forall k :: 0 <= k < i ==> notes[1..][k].id != id;
        assert notes[i + 1] == r.value;
        r
      else r
  }

  /** Appending a note and then deleting its id, when no other note had it, restores the list. */
  lemma AddThenDelete(notes: seq<Note>, n: Note)
    requires n.id !in NoteIds(notes)
    ensures RemoveNotes(notes + [n], n.id) == notes
  {
    forall k | 0 <= k < |notes| ensures notes[k].id != n.id {
      assert NoteIds(notes)[k] == notes[k].id;
    }
    AddThenDeleteFresh(notes, n);
  }

  lemma {:induction false} AddThenDeleteFresh(notes: seq<Note>, n: Note)
    requires forall k :: 0 <= k < |notes| ==> notes[k].id != n.id
    ensures RemoveNotes(notes + [n], n.id) == notes
    decreases |notes|
  {
    if notes == [] {
      assert [] + [n] == [n];
    } else {
      assert (notes + [n])[1..] == notes[1..] + [n];
      assert notes[0].id != n.id;
      AddThenDeleteFresh(notes[1..], n);
      assert notes == [notes[0]] + notes[1..];
    }
  }

  /** Deleting an id removes exactly the notes that carry it, so nothing is found under it afterwards. */
  lemma DeleteThenFind(notes: seq<Note>, id: string)
    ensures FindNote(RemoveNotes(notes, id), id).None?
  {
    var r := RemoveNotes(notes, id);
    forall k | 0 <= k < |r| ensures r[k].id != id {
      assert r[k] in r;
    }
  }

  /**
   * Updating keeps the length, changes only the notes with the updated id, and
   * afterwards the first note with that id is the update, when one had it.
   */
  lemma UpdateThenFind(notes: seq<Note>, updated: Note)
    ensures |ReplaceNotes(notes, updated)| == |notes|
    ensures forall i :: 0 <= i < |notes| && notes[i].id != updated.id ==> ReplaceNotes(notes, updated)[i] == notes[i]
    ensures forall i :: 0 <= i < |notes| && notes[i].id == updated.id ==> ReplaceNotes(notes, updated)[i] == updated
    ensures FindNote(ReplaceNotes(notes, updated), updated.id)
            == if updated.id in NoteIds(notes) then Some(updated) else None
    ensures forall id :: id != updated.id ==> FindNote(ReplaceNotes(notes, updated), id) == FindNote(notes, id)
  {
    var r := ReplaceNotes(notes, updated);
    if updated.id in NoteIds(notes) {
      var j :| 0 <= j < |notes| && NoteIds(notes)[j] == updated.id;
      assert r[j].id == updated.id;
    } else {
      forall k | 0 <= k < |r| ensures r[k].id != updated.id {
        assert NoteIds(notes)[k] == notes[k].id;
      }
    }
    forall id | id != updated.id ensures FindNote(r, id) == FindNote(notes, id) {
      FindUnchanged(notes, r, id);
    }
  }

  /** Two lists that agree on every note carrying `id` or not, position by position, find the same note under it. */
  lemma {:induction false} FindUnchanged(a: seq<Note>, b: seq<Note>, id: string)
    requires |a| == |b|
    requires forall i :: 0 <= i < |a| ==> (a[i].id == id || b[i].id == id ==> a[i] == b[i])
    requires forall i :: 0 <= i < |a| ==> (a[i].id == id <==> b[i].id == id)
    ensures FindNote(a, id) == FindNote(b, id)
    decreases |a|
  {
    if a != [] && a[0].id != id {
      assert forall i :: 0 <= i < |a| - 1 ==> a[1..][i] == a[i + 1] && b[1..][i] == b[i + 1];
      FindUnchanged(a[1..], b[1..], id);
    }
  }
}
