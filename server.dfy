/** The three request handlers of the note server. Each handler reads the whole
    notes file, transforms the list and (for POST and DELETE) writes it back.
    The file read is abstracted as a `ReadOutcome`, the success of the write
    as a boolean, and a handler as a function to the list it writes (if any)
    and the response it sends. */
module Server {
  import opened Notes

  /** What reading and parsing the notes file gives. */
  datatype ReadOutcome =
    | ReadErr                   // fs.readFile reported an error
    | Corrupt                   // the file was read, but JSON.parse threw
    | Parsed(notes: seq<Note>)  // the file holds this list

  /** Response bodies: an error message, the note list, the stored note, or
      `{ success: true }`. */
  datatype Body = ErrorBody(message: string) | NoteList(notes: seq<Note>) | Stored(note: Note) | Success

  datatype Response = Response(status: int, body: Body)

  /** The list written back to the file (None when no write is attempted),
      and the response sent. */
  datatype Effect = Effect(written: Option<seq<Note>>, response: Response)

  const ReadErrorMessage: string := "ファイル読み込みエラー"
  const ParseErrorMessage: string := "JSONパースエラー"
  const WriteErrorMessage: string := "ファイル書き込みエラー"

  /** The list POST and DELETE work on: a corrupt file counts as empty
      (`let memos = []` survives the swallowed parse error). */
  function Lenient(r: ReadOutcome): (notes: seq<Note>)
    requires !r.ReadErr?
    ensures r.Corrupt? ==> notes == []
    ensures r.Parsed? ==> notes == r.notes
  {
    if r.Parsed? then r.notes else []
  }

  /** GET /api/memos. */
  function HandleGet(r: ReadOutcome): (e: Effect)
    ensures e.written.None?
    ensures e.response.status == 200 <==> r.Parsed?
    ensures r.Parsed? ==> e.response.body == NoteList(r.notes)
    ensures r.ReadErr? ==> e.response == Response(500, ErrorBody(ReadErrorMessage))
    ensures r.Corrupt? ==> e.response == Response(500, ErrorBody(ParseErrorMessage))
  {
    match r
    case ReadErr => Effect(None, Response(500, ErrorBody(ReadErrorMessage)))
    case Corrupt => Effect(None, Response(500, ErrorBody(ParseErrorMessage)))
    case Parsed(notes) => Effect(None, Response(200, NoteList(notes)))
  }

  /** The response sent once the write has completed. */
  function AfterWrite(writeOk: bool, success: Body): (resp: Response)
    ensures resp.status == 200 <==> writeOk
    ensures writeOk ==> resp.body == success
    ensures !writeOk ==> resp.body == ErrorBody(WriteErrorMessage)
  {
    if writeOk then Response(200, success) else Response(500, ErrorBody(WriteErrorMessage))
  }

  /** POST /api/memos with body `newMemo`. */
  function HandlePost(r: ReadOutcome, newMemo: Note, writeOk: bool): (e: Effect)
    ensures r.ReadErr? <==> e.written.None?
    ensures r.ReadErr? ==> e.response == Response(500, ErrorBody(ReadErrorMessage))
    ensures r.Parsed? ==> e.written == Some(r.notes + [newMemo])
    ensures r.Corrupt? ==> e.written == Some([newMemo])
    ensures e.response.status == 200 <==> !r.ReadErr? && writeOk
    ensures e.response.status == 200 ==> e.response.body == Stored(newMemo)
    ensures !r.ReadErr? && !writeOk ==> e.response == Response(500, ErrorBody(WriteErrorMessage))
  {
    if r.ReadErr? then Effect(None, Response(500, ErrorBody(ReadErrorMessage)))
    else
      var memos := Lenient(r);
      var pushed := memos + [newMemo];
      assert r.Corrupt? ==> pushed == [newMemo];
      Effect(Some(pushed), AfterWrite(writeOk, Stored(newMemo)))
  }

  /** `notes.filter(memo => memo.id !== id)`. */
  function RemoveId(notes: seq<Note>, id: int): (kept: seq<Note>)
    ensures forall n :: n in kept ==> n in notes && n.id != id
    ensures |kept| == |notes| - CountId(notes, id)
  {
    if notes == [] then []
    else if notes[0].id != id then [notes[0]] + RemoveId(notes[1..], id)
    else RemoveId(notes[1..], id)
  }

  /** `a` is `b` with some elements left out, the rest in their order. */
  ghost predicate IsSubsequence<T>(a: seq<T>, b: seq<T>)
    decreases |b|
  {
    if a == [] then true
    else if b == [] then false
    else if a[0] == b[0] then IsSubsequence(a[1..], b[1..])
    else IsSubsequence(a, b[1..])
  }

  /** Every note whose id differs from the target is kept, as often as it
      occurred. */
  lemma {:induction false} RemoveIdKeepsOthers(notes: seq<Note>, id: int, n: Note)
    requires n.id != id
    ensures multiset(RemoveId(notes, id))[n] == multiset(notes)[n]
  {
    if notes != [] {
      RemoveIdKeepsOthers(notes[1..], id, n);
      assert notes == [notes[0]] + notes[1..];
    }
  }

  /** The kept notes stay in their original relative order. */
  lemma {:induction false} RemoveIdKeepsOrder(notes: seq<Note>, id: int)
    ensures IsSubsequence(RemoveId(notes, id), notes)
  {
    if notes != [] {
      RemoveIdKeepsOrder(notes[1..], id);
      var rest := RemoveId(notes[1..], id);
      if notes[0].id != id {
        assert ([notes[0]] + rest)[1..] == rest;
      } else {
        SubsequenceOfTail(rest, notes);
      }
    }
  }

  /** A subsequence of the tail is a subsequence of the whole. */
  lemma {:induction false} SubsequenceOfTail<T>(a: seq<T>, b: seq<T>)
    requires b != [] && IsSubsequence(a, b[1..])
    ensures IsSubsequence(a, b)
    decreases |b|, 0
  {
    if a != [] && a[0] == b[0] {
      SubsequenceDropHead(a, b[1..]);
    }
  }

  /** Leaving out the first element of a subsequence keeps it a subsequence. */
  lemma {:induction false} SubsequenceDropHead<T>(a: seq<T>, c: seq<T>)
    requires a != [] && IsSubsequence(a, c)
    ensures IsSubsequence(a[1..], c)
    decreases |c|, 1
  {
    if a[0] == c[0] {
      SubsequenceOfTail(a[1..], c);
    } else {
      SubsequenceDropHead(a, c[1..]);
      SubsequenceOfTail(a[1..], c);
    }
  }

  /** DELETE /api/memos/:id. */
  function HandleDelete(r: ReadOutcome, id: int, writeOk: bool): (e: Effect)
    ensures r.ReadErr? <==> e.written.None?
    ensures r.ReadErr? ==> e.response == Response(500, ErrorBody(ReadErrorMessage))
    ensures r.Parsed? ==> e.written == Some(RemoveId(r.notes, id))
    ensures r.Corrupt? ==> e.written == Some([])
    ensures e.response.status == 200 <==> !r.ReadErr? && writeOk
    ensures e.response.status == 200 ==> e.response.body == Success
    ensures !r.ReadErr? && !writeOk ==> e.response == Response(500, ErrorBody(WriteErrorMessage))
  {
    if r.ReadErr? then Effect(None, Response(500, ErrorBody(ReadErrorMessage)))
    else
      var memos := Lenient(r);
      Effect(Some(RemoveId(memos, id)), AfterWrite(writeOk, Success))
  }

  // ---------------------------------------------------------------------
  // Properties of the delete filter

  /** Deleting an id that no note carries leaves the list unchanged, and only then. */
  lemma {:induction false} RemoveAbsentId(notes: seq<Note>, id: int)
    ensures RemoveId(notes, id) == notes <==> CountId(notes, id) == 0
  {
    if notes != [] {
      RemoveAbsentId(notes[1..], id);
    }
  }

  /** Deleting the same id twice writes the same list as deleting it once. */
  lemma {:induction false} RemoveIdIdempotent(notes: seq<Note>, id: int)
    ensures RemoveId(RemoveId(notes, id), id) == RemoveId(notes, id)
  {
    RemoveAbsentId(RemoveId(notes, id), id);
  }

  /** The filter works note by note, so it distributes over concatenation. */
  lemma {:induction false} RemoveIdAppend(a: seq<Note>, b: seq<Note>, id: int)
    ensures RemoveId(a + b, id) == RemoveId(a, id) + RemoveId(b, id)
  {
    if a == [] {
      assert a + b == b;
    } else {
      var ab := a + b;
      assert ab[0] == a[0] && ab[1..] == a[1..] + b;
      RemoveIdAppend(a[1..], b, id);
      if a[0].id != id {
        calc {
          RemoveId(ab, id);
          [a[0]] + RemoveId(a[1..] + b, id);
          [a[0]] + (RemoveId(a[1..], id) + RemoveId(b, id));
          ([a[0]] + RemoveId(a[1..], id)) + RemoveId(b, id);
        }
      }
    }
  }

  /** Deleting two ids one after the other gives the same list in either order. */
  lemma {:induction false} RemoveIdCommutes(notes: seq<Note>, x: int, y: int)
    ensures RemoveId(RemoveId(notes, x), y) == RemoveId(RemoveId(notes, y), x)
  {
    if notes != [] {
      RemoveIdCommutes(notes[1..], x, y);
    }
  }

  // ---------------------------------------------------------------------
  // Sequences of requests against the file

  /** The file after a handler's effect, when the write succeeds. */
  function NextFile(file: ReadOutcome, e: Effect): (next: ReadOutcome)
    ensures e.written.Some? ==> next == Parsed(e.written.value)
    ensures e.written.None? ==> next == file
  {
    if e.written.Some? then Parsed(e.written.value) else file
  }

  /** The file after POSTing each note of `ns` in turn, every write succeeding. */
  function PostAll(file: ReadOutcome, ns: seq<Note>): ReadOutcome
    decreases |ns|
  {
    if ns == [] then file
    else PostAll(NextFile(file, HandlePost(file, ns[0], true)), ns[1..])
  }

  /** After a run of successful POSTs to a readable file, GET lists the
      earlier notes followed by exactly the posted ones, in posting order. */
  lemma {:induction false} AppendsThenList(xs: seq<Note>, ns: seq<Note>)
    ensures HandleGet(PostAll(Parsed(xs), ns)).response == Response(200, NoteList(xs + ns))
    decreases |ns|
  {
    if ns == [] {
      assert xs + ns == xs;
    } else {
      assert (xs + [ns[0]]) + ns[1..] == xs + ns;
      AppendsThenList(xs + [ns[0]], ns[1..]);
    }
  }

  /** A corrupt file is silently replaced: after one or more successful POSTs,
      GET lists only the posted notes. */
  lemma CorruptFileLosesOldContent(ns: seq<Note>)
    requires ns != []
    ensures HandleGet(PostAll(Corrupt, ns)).response == Response(200, NoteList(ns))
  {
    assert PostAll(Corrupt, ns) == PostAll(Parsed([ns[0]]), ns[1..]);
    AppendsThenList([ns[0]], ns[1..]);
    assert [ns[0]] + ns[1..] == ns;
  }

  /** Deleting the id of a note just posted, when no other note had that id,
      writes back exactly the list from before the POST. */
  lemma PostThenDelete(xs: seq<Note>, n: Note)
    requires CountId(xs, n.id) == 0
    ensures HandleDelete(NextFile(Parsed(xs), HandlePost(Parsed(xs), n, true)), n.id, true).written == Some(xs)
  {
    var post := HandlePost(Parsed(xs), n, true);
    assert post.written == Some(xs + [n]);
    var file := NextFile(Parsed(xs), post);
    assert file == Parsed(xs + [n]);
    RemoveIdAppend(xs, [n], n.id);
    RemoveAbsentId(xs, n.id);
    assert RemoveId([n], n.id) == [];
    assert RemoveId(xs + [n], n.id) == xs;
  }
}
