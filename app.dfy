/** The client component's state and the user actions that update it. The
    component's React state hooks become the fields of `MemoApp`; each
    handler becomes a method. Network round trips, `Date.now()` and
    `Math.random()` are parameters of the methods. */
module App {
  import opened Notes
  import opened Pagination
  import opened Links
  import Server

  // ---------------------------------------------------------------------
  // Pure helpers the handlers use

  /** Characters that JavaScript's `String.prototype.trim` removes. */
  predicate IsJsWhiteSpace(c: char)
  {
    c == ' ' || c == '\t' || c == '\n' || c == '\r' || c == '\U{000B}' || c == '\U{000C}'
    || c == '\U{00A0}' || c == '\U{1680}' || ('\U{2000}' <= c <= '\U{200A}')
    || c == '\U{2028}' || c == '\U{2029}' || c == '\U{202F}' || c == '\U{205F}'
    || c == '\U{3000}' || c == '\U{FEFF}'
  }

  /** `s.trim()` is non-empty. */
  predicate HasVisibleText(s: string)
  {
    exists i :: 0 <= i < |s| && !IsJsWhiteSpace(s[i])
  }

  /** The body `addMemo` posts. The content is sent untrimmed; `source` is
      attached only to highlights; with the "both" flag the link is the ids
      of the notes on the current page, otherwise the single link (or null). */
  function NewMemoPayload(id: int, createdAt: string, content: string, kind: NoteType,
                          source: string, linkBoth: bool, linking: Option<int>,
                          shown: seq<Note>): (n: Note)
    ensures n.id == id && n.content == content && n.createdAt == createdAt && n.kind == kind
    ensures n.source.Some? <==> kind == Highlight
    ensures n.source.Some? ==> n.source.value == source
    ensures linkBoth ==> (&& n.linkedTo.Many?
                          && |n.linkedTo.ids| == |shown|
                          && forall i :: 0 <= i < |shown| ==> n.linkedTo.ids[i] == shown[i].id)
    ensures !linkBoth && linking.None? ==> n.linkedTo == NoLink
    ensures !linkBoth && linking.Some? ==> n.linkedTo == Single(linking.value)
  {
    var link := if linkBoth then Many(IdsOf(shown)) else if linking.Some? then Single(linking.value) else NoLink;
    Note(id, content, createdAt, kind, if kind == Highlight then Some(source) else None, link)
  }

  /** A note created in "both" mode links back to exactly the notes that were
      on the page, in page order, when ids are unique. */
  lemma {:induction false} PayloadLinksShownNotes(memos: seq<Note>, page: nat, id: int, createdAt: string,
                                                  content: string, kind: NoteType, source: string)
    requires UniqueIds(memos)
    ensures var shown := CurrentMemos(memos, page);
      var n := NewMemoPayload(id, createdAt, content, kind, source, true, None, shown);
      var entries := GetLinkedMemos(memos, n.linkedTo);
      |entries| == |shown| && forall i :: 0 <= i < |shown| ==> entries[i] == Found(shown[i])
  {
    var shown := CurrentMemos(memos, page);
    var ids := IdsOf(shown);
    forall id' | id' in ids
      ensures GetLinkedMemo(memos, id').Found?
    {
      var i :| 0 <= i < |ids| && ids[i] == id';
      LookupHeldNote(memos, page * MemosPerPage + i);
    }
    forall i | 0 <= i < |shown|
      ensures ResolveAll(memos, ids)[i] == Found(shown[i])
    {
      ResolveAllComplete(memos, ids, i);
      LookupHeldNote(memos, page * MemosPerPage + i);
    }
  }

  /** The two displayed notes with ids 10 and 20, linked with the "both"
      action, give `linkedTo == [10, 20]`, and these resolve to the two notes
      in that order. */
  lemma LinkBothScenario(a: Note, b: Note, id: int, createdAt: string, content: string)
    requires a.id == 10 && b.id == 20
    ensures var n := NewMemoPayload(id, createdAt, content, Personal, "", true, None, CurrentMemos([a, b], 0));
      n.linkedTo == Many([10, 20]) && GetLinkedMemos([a, b], n.linkedTo) == [Found(a), Found(b)]
  {
    var n := NewMemoPayload(id, createdAt, content, Personal, "", true, None, CurrentMemos([a, b], 0));
    assert n.linkedTo.ids == [10, 20];
    PairResolvesInOrder([a, b], a, b);
  }

  /** The reordering `reloadMemos` applies. `[...memos].sort(() => Math.random() - 0.5)`
      yields some permutation of the list; here the random choices are the
      `picks`, each choosing (modulo the remaining length) the next note. */
  function Shuffled(memos: seq<Note>, picks: seq<nat>): (r: seq<Note>)
    ensures |r| == |memos|
    ensures multiset(r) == multiset(memos)
    decreases |memos|
  {
    if memos == [] then []
    else
      var i := if picks == [] then 0 else picks[0] % |memos|;
      var rest := memos[..i] + memos[i + 1..];
      assert memos == memos[..i] + [memos[i]] + memos[i + 1..];
      [memos[i]] + Shuffled(rest, if picks == [] then [] else picks[1..])
  }

  /** Deletion does not touch links: once the server has removed every note
      with a (truthy) id, a single link to it renders the placeholder. */
  lemma DeletedNoteShowsPlaceholder(memos: seq<Note>, id: int)
    requires id != 0
    ensures LinkedTexts(Server.RemoveId(memos, id), Single(id)) == [DeletedPlaceholder]
  {
    DeletedTargets(Server.RemoveId(memos, id), Single(id));
  }

  /** When the deleted id was carried by exactly one note and others remain,
      the page chosen by the clamp shows notes of the list the server wrote. */
  lemma ClampAfterServerDelete(memos: seq<Note>, id: int, currentPage: nat)
    requires Notes.CountId(memos, id) == 1 && |memos| >= 2
    ensures CurrentMemos(Server.RemoveId(memos, id), ClampAfterDelete(currentPage, |memos|)) != []
  {
    ClampShowsNotes(Server.RemoveId(memos, id), currentPage, |memos|);
  }

  /** Two notes sharing the deleted id: the server removes both, but the
      clamp assumes one was removed, so the view stays on page 1, which is now
      empty, and with a single page left no page buttons are rendered. */
  lemma DuplicateIdDeleteStrandsPage(a: Note, b: Note, c: Note, d: Note)
    requires a.id != 7 && b.id != 7 && c.id == 7 && d.id == 7
    ensures Server.HandleDelete(Server.Parsed([a, b, c, d]), 7, true).written == Some([a, b])
    ensures ClampAfterDelete(1, 4) == 1
    ensures CurrentMemos([a, b], ClampAfterDelete(1, 4)) == []
    ensures TotalPages(2) == 1
  {
    assert [a, b, c, d][1..] == [b, c, d] && [b, c, d][1..] == [c, d];
    assert [c, d][1..] == [d] && [d][1..] == [];
    assert Server.RemoveId([c, d], 7) == [];
    assert Server.RemoveId([b, c, d], 7) == [b];
    assert Server.RemoveId([a, b, c, d], 7) == [a, b];
  }

  /** The note-creation form as the title and link panels present it. */
  datatype FormMode = Closed | Plain | LinkedToOne(target: int) | LinkedToBoth

  /** The form's fields, for stating what an action leaves alone. */
  datatype Draft = Draft(open: bool, content: string, linking: Option<int>, linkBoth: bool,
                         kind: NoteType, source: string)

  // ---------------------------------------------------------------------
  // The component

  class MemoApp {
    var memos: seq<Note>
    var currentPage: nat
    var newMemoContent: string
    var showAddForm: bool
    var linkingToMemo: Option<int>
    var linkingToBothMemos: bool
    var newMemoType: NoteType
    var newMemoSource: string

    /** A closed form holds no draft and no link target, and at most one link
        mode is set. */
    ghost predicate Valid()
      reads this
    {
      && (!showAddForm ==> newMemoContent == "" && newMemoSource == "" && linkingToMemo.None? && !linkingToBothMemos)
      && !(linkingToBothMemos && linkingToMemo.Some?)
    }

    function Form(): Draft
      reads this
    {
      Draft(showAddForm, newMemoContent, linkingToMemo, linkingToBothMemos, newMemoType, newMemoSource)
    }

    /** The form's mode as its title tells it: the "both" flag first, then a
        truthy single link (an id of 0 is falsy and gives the plain title). */
    function Mode(): (m: FormMode)
      reads this
      ensures m == Closed <==> !showAddForm
      ensures m == LinkedToBoth <==> showAddForm && linkingToBothMemos
      ensures m.LinkedToOne? <==> showAddForm && !linkingToBothMemos && linkingToMemo.Some? && linkingToMemo.value != 0
      ensures m.LinkedToOne? ==> linkingToMemo == Some(m.target)
      ensures m == Plain <==> showAddForm && !linkingToBothMemos && (linkingToMemo.None? || linkingToMemo.value == 0)
    {
      if !showAddForm then Closed
      else if linkingToBothMemos then LinkedToBoth
      else if linkingToMemo.Some? && linkingToMemo.value != 0 then LinkedToOne(linkingToMemo.value)
      else Plain
    }

    /** `currentMemos` of the current state. */
    function Shown(): seq<Note>
      reads this
    {
      CurrentMemos(memos, currentPage)
    }

    /** The initial values of the state hooks. */
    constructor ()
      ensures Valid()
      ensures memos == [] && currentPage == 0
      ensures Form() == Draft(false, "", None, false, Personal, "")
    {
      memos := [];
      currentPage := 0;
      newMemoContent := "";
      showAddForm := false;
      linkingToMemo := None;
      linkingToBothMemos := false;
      newMemoType := Personal;
      newMemoSource := "";
    }

    /** A page button: `setCurrentPage(i)`. The buttons, one per page, are
        rendered only when there is more than one page. */
    method GoToPage(i: nat)
      requires Valid()
      requires TotalPages(|memos|) > 1 && i < TotalPages(|memos|)
      modifies this
      ensures Valid()
      ensures currentPage == i && Shown() != []
      ensures memos == old(memos) && Form() == old(Form())
    {
      currentPage := i;
    }

    /** `deleteMemo(id)`: `target` is the id the DELETE request carries, the
        one `Server.HandleDelete` receives; `sent` is whether the request went
        out without a network error, `refreshed` what the following `fetchMemos` loaded (None
        when it failed and the list was kept). The page clamp uses the length
        of the list from before the delete. */
    method DeleteMemo(id: int, sent: bool, refreshed: Option<seq<Note>>) returns (target: int)
      requires Valid()
      modifies this
      ensures target == id
      ensures Valid()
      ensures !sent ==> memos == old(memos) && currentPage == old(currentPage)
      ensures sent && refreshed.Some? ==> memos == refreshed.value
      ensures sent && refreshed.None? ==> memos == old(memos)
      ensures sent ==> currentPage == ClampAfterDelete(old(currentPage), |old(memos)|)
      ensures Form() == old(Form())
    {
      target := id;
      if sent {
        var lengthBefore := |memos|;
        if refreshed.Some? {
          memos := refreshed.value;
        }
        currentPage := ClampAfterDelete(currentPage, lengthBefore);
      }
    }

    /** `reloadMemos`: reorder the held notes and go back to the first page. */
    method ReloadMemos(picks: seq<nat>)
      requires Valid()
      modifies this
      ensures Valid()
      ensures memos == Shuffled(old(memos), picks)
      ensures multiset(memos) == multiset(old(memos))
      ensures currentPage == 0
      ensures Form() == old(Form())
    {
      memos := Shuffled(memos, picks);
      currentPage := 0;
    }

    /** `startLinkingMode(id)`: the link button on a note card. */
    method StartLinkingMode(id: int)
      requires Valid()
      modifies this
      ensures Valid()
      ensures linkingToMemo == Some(id) && !linkingToBothMemos && showAddForm
      ensures id != 0 ==> Mode() == LinkedToOne(id)
      ensures newMemoContent == old(newMemoContent) && newMemoType == old(newMemoType)
      ensures newMemoSource == old(newMemoSource)
      ensures memos == old(memos) && currentPage == old(currentPage)
    {
      linkingToMemo := Some(id);
      linkingToBothMemos := false;
      showAddForm := true;
    }

    /** `startLinkingBothMode`: the button shown only while exactly two notes
        are on the page. */
    method StartLinkingBothMode()
      requires Valid()
      requires |Shown()| == 2
      modifies this
      ensures Valid()
      ensures linkingToBothMemos && linkingToMemo.None? && showAddForm
      ensures Mode() == LinkedToBoth
      ensures newMemoContent == old(newMemoContent) && newMemoType == old(newMemoType)
      ensures newMemoSource == old(newMemoSource)
      ensures memos == old(memos) && currentPage == old(currentPage)
    {
      linkingToBothMemos := true;
      linkingToMemo := None;
      showAddForm := true;
    }

    /** The "+" button: only opens the form. Because a closed form holds no
        link state, opening a closed form gives a plain, empty form. */
    method OpenAddForm()
      requires Valid()
      modifies this
      ensures Valid()
      ensures Form() == old(Form()).(open := true)
      ensures !old(showAddForm) ==> Mode() == Plain && newMemoContent == "" && newMemoSource == ""
      ensures memos == old(memos) && currentPage == old(currentPage)
    {
      showAddForm := true;
    }

    /** The cancel button: closes the form and clears the draft and the link
        state, but keeps the chosen note type. */
    method CancelAddForm()
      requires Valid()
      modifies this
      ensures Valid()
      ensures Form() == Draft(false, "", None, false, old(newMemoType), "")
      ensures memos == old(memos) && currentPage == old(currentPage)
    {
      showAddForm := false;
      newMemoContent := "";
      newMemoSource := "";
      linkingToMemo := None;
      linkingToBothMemos := false;
    }

    /** The content textarea, present only while the form is open. */
    method SetContent(s: string)
      requires Valid() && showAddForm
      modifies this
      ensures Valid()
      ensures Form() == old(Form()).(content := s)
      ensures memos == old(memos) && currentPage == old(currentPage)
    {
      newMemoContent := s;
    }

    /** The note-type radio buttons, present only while the form is open. */
    method SetType(kind: NoteType)
      requires Valid() && showAddForm
      modifies this
      ensures Valid()
      ensures Form() == old(Form()).(kind := kind)
      ensures memos == old(memos) && currentPage == old(currentPage)
    {
      newMemoType := kind;
    }

    /** The source field, present only while the open form is set to highlight. */
    method SetSource(s: string)
      requires Valid() && showAddForm && newMemoType == Highlight
      modifies this
      ensures Valid()
      ensures Form() == old(Form()).(source := s)
      ensures memos == old(memos) && currentPage == old(currentPage)
    {
      newMemoSource := s;
    }

    /** `addMemo`: does nothing when the trimmed content is empty. Otherwise it
        posts the payload (returned as `request`); when the POST goes out
        (`sent`) it reloads the list (`refreshed`, None when that fetch failed)
        and closes and clears the form, keeping the note type. A network
        failure of the POST leaves the state as it was. */
    method AddMemo(id: int, createdAt: string, sent: bool, refreshed: Option<seq<Note>>)
      returns (request: Option<Note>)
      requires Valid()
      modifies this
      ensures Valid()
      ensures request.Some? <==> HasVisibleText(old(newMemoContent))
      ensures request.Some? ==> request.value == NewMemoPayload(id, createdAt, old(newMemoContent),
        old(newMemoType), old(newMemoSource), old(linkingToBothMemos), old(linkingToMemo),
        CurrentMemos(old(memos), old(currentPage)))
      ensures request.None? || !sent ==> memos == old(memos) && Form() == old(Form())
      ensures request.Some? && sent ==> Form() == Draft(false, "", None, false, old(newMemoType), "")
      ensures request.Some? && sent && refreshed.Some? ==> memos == refreshed.value
      ensures request.Some? && sent && refreshed.None? ==> memos == old(memos)
      ensures currentPage == old(currentPage)
    {
      request := None;
      if HasVisibleText(newMemoContent) {
        var payload := NewMemoPayload(id, createdAt, newMemoContent, newMemoType, newMemoSource,
                                      linkingToBothMemos, linkingToMemo, CurrentMemos(memos, currentPage));
        request := Some(payload);
        if sent {
          if refreshed.Some? {
            memos := refreshed.value;
          }
          newMemoContent := "";
          newMemoSource := "";
          showAddForm := false;
          linkingToMemo := None;
          linkingToBothMemos := false;
        }
      }
    }
  }
}
