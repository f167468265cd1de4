/**
 * What the notes panel shows: the private notes of the selected node and the
 * public notes of every node, each narrowed by a case-insensitive search, the
 * public ones optionally by author; the two badge counts; and which menu entries a
 * public note offers. Lower-casing covers ASCII letters only.
 */
module NoteFilters {
  import opened Seqs
  import opened Notes

  const EDIT: string := "Edit"
  const COPY: string := "Copy"
  const DELETE: string := "Delete"

  function LowerChar(c: char): char {
    if 'A' <= c <= 'Z' then (c as int - 'A' as int + 'a' as int) as char else c
  }

  function Lower(s: string): (r: string)
    ensures |r| == |s| && forall i :: 0 <= i < |s| ==> r[i] == LowerChar(s[i])
  {
    seq(|s|, i requires 0 <= i < |s| => LowerChar(s[i]))
  }

  /** Lower-casing twice is lower-casing once. */
  lemma LowerIdempotent(s: string)
    ensures Lower(Lower(s)) == Lower(s)
  {
    forall i | 0 <= i < |s| ensures LowerChar(LowerChar(s[i])) == LowerChar(s[i]) {
    }
  }

  /** `t` occurs in `s` starting at `i`. */
  ghost predicate OccursAt(s: string, t: string, i: int) {
    0 <= i && i + |t| <= |s| && s[i..i + |t|] == t
  }

  /** Whether `t` occurs somewhere in `s` (the empty text occurs everywhere). */
  function Includes(s: string, t: string): (b: bool)
    ensures b <==> exists i :: OccursAt(s, t, i)
    decreases |s|
  {
    if |t| <= |s| && s[..|t|] == t then
      assert OccursAt(s, t, 0);
      true
    else if s == [] then false
    else
      var b := Includes(s[1..], t);
      IncludesShift(s, t, b);
      b
  }

  /** One character further on: an occurrence after the first position is one in the tail. */
  lemma IncludesShift(s: string, t: string, b: bool)
    requires s != [] && !(|t| <= |s| && s[..|t|] == t)
    requires b <==> exists i :: OccursAt(s[1..], t, i)
    ensures b <==> exists i :: OccursAt(s, t, i)
  {
    if b {
      var i :| OccursAt(s[1..], t, i);
      assert s[1..][i..i + |t|] == s[i + 1..i + 1 + |t|];
      assert OccursAt(s, t, i + 1);
    } else {
      forall i | OccursAt(s, t, i) ensures OccursAt(s[1..], t, i - 1) {
        assert s[i..i + |t|] != s[..|t|];
        assert s[1..][i - 1..i - 1 + |t|] == s[i..i + |t|];
      }
    }
  }

  /** The search rule both panels use: the lower-cased text contains the lower-cased term. */
  predicate MatchesSearch(n: Note, term: string) {
    Includes(Lower(n.text), Lower(term))
  }

  /** An empty search matches every note. */
  lemma EmptySearchMatches(n: Note)
    ensures MatchesSearch(n, "")
  {
    assert Lower(n.text)[..0] == "";
  }

  /** A private note of the selected node; with no node selected there is none. */
  predicate IsPrivateOf(n: Note, selectedId: Option<string>) {
    selectedId.Some? && n.nodeId == selectedId.value && n.kind == PRIVATE
  }

  /** A public note by the chosen author, or by anyone when no author is chosen. */
  predicate IsPublicBy(n: Note, author: Option<string>) {
    n.kind == PUBLIC && (author.None? || n.addedBy == author.value)
  }

  /** The private panel's list. */
  function PrivateNotes(notes: seq<Note>, selectedId: Option<string>, term: string): (r: seq<Note>)
    ensures IsSubsequence(r, notes)
    ensures forall n :: n in r <==> n in notes && IsPrivateOf(n, selectedId) && MatchesSearch(n, term)
    ensures forall n :: multiset(r)[n] == if IsPrivateOf(n, selectedId) && MatchesSearch(n, term) then multiset(notes)[n] else 0
  {
    if notes == [] then []
    else
      var rest := PrivateNotes(notes[1..], selectedId, term);
      SubsequenceCons(notes[0], rest, notes[1..]);
      assert notes == [notes[0]] + notes[1..];
      if IsPrivateOf(notes[0], selectedId) && MatchesSearch(notes[0], term) then [notes[0]] + rest else rest
  }

  /** The public panel's list: the selected node plays no part. */
  function PublicNotes(notes: seq<Note>, term: string, author: Option<string>): (r: seq<Note>)
    ensures IsSubsequence(r, notes)
    ensures forall n :: n in r <==> n in notes && IsPublicBy(n, author) && MatchesSearch(n, term)
    ensures forall n :: multiset(r)[n] == if IsPublicBy(n, author) && MatchesSearch(n, term) then multiset(notes)[n] else 0
  {
    if notes == [] then []
    else
      var rest := PublicNotes(notes[1..], term, author);
      SubsequenceCons(notes[0], rest, notes[1..]);
      assert notes == [notes[0]] + notes[1..];
      if IsPublicBy(notes[0], author) && MatchesSearch(notes[0], term) then [notes[0]] + rest else rest
  }

  /** The private badge: the selected node's private notes. */
  function PrivateNoteLength(notes: seq<Note>, selectedId: Option<string>): (r: nat)
    ensures r <= |notes|
    ensures r == 0 <==> forall k :: 0 <= k < |notes| ==> !IsPrivateOf(notes[k], selectedId)
  {
    if notes == [] then 0
    else (if IsPrivateOf(notes[0], selectedId) then 1 else 0) + PrivateNoteLength(notes[1..], selectedId)
  }

  /** The public badge: the public notes of every node. */
  function PublicNoteLength(notes: seq<Note>): (r: nat)
    ensures r <= |notes|
    ensures r == 0 <==> forall k :: 0 <= k < |notes| ==> notes[k].kind != PUBLIC
  {
    if notes == [] then 0
    else (if notes[0].kind == PUBLIC then 1 else 0) + PublicNoteLength(notes[1..])
  }

  /** With an empty search, the private panel lists as many notes as its badge counts. */
  lemma {:induction false} PrivateBadgeMatchesList(notes: seq<Note>, selectedId: Option<string>)
    ensures |PrivateNotes(notes, selectedId, "")| == PrivateNoteLength(notes, selectedId)
    decreases |notes|
  {
    if notes != [] {
      EmptySearchMatches(notes[0]);
      PrivateBadgeMatchesList(notes[1..], selectedId);
    }
  }

  /** With an empty search and no author chosen, the public panel lists as many notes as its badge counts. */
  lemma {:induction false} PublicBadgeMatchesList(notes: seq<Note>)
    ensures |PublicNotes(notes, "", None)| == PublicNoteLength(notes)
    decreases |notes|
  {
    if notes != [] {
      EmptySearchMatches(notes[0]);
      PublicBadgeMatchesList(notes[1..]);
    }
  }

  /** A note is either private or public, so the two badges together never exceed the number of notes. */
  lemma {:induction false} BadgesBounded(notes: seq<Note>, selectedId: Option<string>)
    ensures PrivateNoteLength(notes, selectedId) + PublicNoteLength(notes) <= |notes|
    decreases |notes|
  {
    if notes != [] {
      BadgesBounded(notes[1..], selectedId);
    }
  }

  /** Adding a private note to the selected node raises its private badge by one and leaves the public badge alone. */
  lemma {:induction false} AddPrivateNoteCounts(notes: seq<Note>, selectedId: string, n: Note)
    requires n.kind == PRIVATE && n.nodeId == selectedId
    ensures PrivateNoteLength(notes + [n], Some(selectedId)) == PrivateNoteLength(notes, Some(selectedId)) + 1
    ensures PublicNoteLength(notes + [n]) == PublicNoteLength(notes)
    decreases |notes|
  {
    if notes == [] {
      assert [] + [n] == [n];
      assert [n][1..] == [];
    } else {
      assert (notes + [n])[1..] == notes[1..] + [n];
      AddPrivateNoteCounts(notes[1..], selectedId, n);
    }
  }

  /** The menu of a public note: Edit and Delete only on notes of the selected node, Copy always. */
  function MenuItems(n: Note, selectedId: Option<string>): (r: seq<string>)
    ensures COPY in r
    ensures EDIT in r <==> selectedId.Some? && n.nodeId == selectedId.value
    ensures DELETE in r <==> selectedId.Some? && n.nodeId == selectedId.value
  {
    var own := selectedId.Some? && n.nodeId == selectedId.value;
    (if own then [EDIT] else []) + [COPY] + (if own then [DELETE] else [])
  }
}
