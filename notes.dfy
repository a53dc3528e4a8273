/** The single entity of the note app: a note (memo), and the small value
    types it is built from. Shared by the server handlers and the client view. */
module Notes {

  datatype Option<+T> = None | Some(value: T)

  /** `type` of a note: a personal memo or a highlighted quotation. */
  datatype NoteType = Personal | Highlight

  /** `linkedTo` of a note as it appears in the stored JSON: absent or null,
      a single id, or an array of ids. */
  datatype Link = NoLink | Single(id: int) | Many(ids: seq<int>)

  /** A stored note. `createdAt` is an opaque timestamp string; `source` is
      present only on highlights created through the form. */
  datatype Note = Note(
    id: int,
    content: string,
    createdAt: string,
    kind: NoteType,
    source: Option<string>,
    linkedTo: Link)

  /** The ids of `notes`, in order (`notes.map(m => m.id)`). */
  function IdsOf(notes: seq<Note>): (ids: seq<int>)
    ensures |ids| == |notes|
    ensures forall i :: 0 <= i < |notes| ==> ids[i] == notes[i].id
  {
    seq(|notes|, i requires 0 <= i < |notes| => notes[i].id)
  }

  /** No two notes of the collection share an id (best effort in the app,
      never enforced by the store). */
  ghost predicate UniqueIds(notes: seq<Note>)
  {
    forall i, j :: 0 <= i < |notes| && 0 <= j < |notes| && notes[i].id == notes[j].id ==> i == j
  }

  /** Number of notes in `notes` whose id is `id`. */
  function CountId(notes: seq<Note>, id: int): (c: nat)
    ensures c <= |notes|
    ensures c == 0 <==> forall n :: n in notes ==> n.id != id
  {
    if notes == [] then 0
    else (if notes[0].id == id then 1 else 0) + CountId(notes[1..], id)
  }
}
