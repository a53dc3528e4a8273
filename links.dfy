/** How the client resolves a note's `linkedTo` against the notes it holds,
    and the texts it shows for linked notes and citation sources. */
module Links {
  import opened Notes

  /** One entry of a resolved link: the note found, or nothing (`undefined`). */
  datatype Resolved = Found(note: Note) | Missing

  const DeletedPlaceholder: string := "削除されたメモ"

  /** Index of the first note with the given id, or |memos| when none has it. */
  function FirstIndex(memos: seq<Note>, id: int): (k: nat)
    ensures k <= |memos|
    ensures k < |memos| ==> memos[k].id == id
    ensures forall j :: 0 <= j < k ==> memos[j].id != id
  {
    if memos == [] then 0
    else if memos[0].id == id then 0
    else 1 + FirstIndex(memos[1..], id)
  }

  /** `getLinkedMemo`: `memos.find(memo => memo.id === id)`. */
  function GetLinkedMemo(memos: seq<Note>, id: int): (r: Resolved)
    ensures r.Missing? <==> forall n :: n in memos ==> n.id != id
    ensures r.Found? ==> r.note in memos && r.note.id == id
    ensures r.Found? ==> exists k :: 0 <= k < |memos| && memos[k] == r.note
                                     && forall j :: 0 <= j < k ==> memos[j].id != id
  {
    var k := FirstIndex(memos, id);
    if k < |memos| then Found(memos[k]) else Missing
  }

  /** `ids.map(id => memos.find(...)).filter(Boolean)`: the first match of each
      id, in the order of the ids, with ids that match nothing dropped. */
  function ResolveAll(memos: seq<Note>, ids: seq<int>): (r: seq<Resolved>)
    ensures |r| <= |ids|
    ensures forall e :: e in r ==> e.Found? && e.note in memos && e.note.id in ids
    ensures |r| == |ids| <==> forall id :: id in ids ==> GetLinkedMemo(memos, id).Found?
  {
    if ids == [] then []
    else
      var first := GetLinkedMemo(memos, ids[0]);
      var rest := ResolveAll(memos, ids[1..]);
      assert forall id :: id in ids <==> id == ids[0] || id in ids[1..];
      if first.Found? then [first] + rest else rest
  }

  /** When every id resolves, entry i is the first note carrying ids[i]. */
  lemma {:induction false} ResolveAllComplete(memos: seq<Note>, ids: seq<int>, i: nat)
    requires forall id :: id in ids ==> GetLinkedMemo(memos, id).Found?
    requires i < |ids|
    ensures |ResolveAll(memos, ids)| == |ids|
    ensures ResolveAll(memos, ids)[i] == GetLinkedMemo(memos, ids[i])
  {
    if i > 0 {
      ResolveAllComplete(memos, ids[1..], i - 1);
    }
  }

  /** When no id resolves, the list of entries is empty. */
  lemma {:induction false} ResolveAllNoneFound(memos: seq<Note>, ids: seq<int>)
    requires forall id :: id in ids ==> GetLinkedMemo(memos, id).Missing?
    ensures ResolveAll(memos, ids) == []
  {
    if ids != [] {
      assert forall id :: id in ids[1..] ==> id in ids;
      ResolveAllNoneFound(memos, ids[1..]);
    }
  }

  /** A single id resolves to its first match, or to nothing when it has none. */
  lemma ResolveAllOne(memos: seq<Note>, id: int)
    ensures ResolveAll(memos, [id]) == if GetLinkedMemo(memos, id).Found? then [GetLinkedMemo(memos, id)] else []
  {
    assert [id][1..] == [];
  }

  /** Ids resolve independently: the entries of `xs + ys` are those of `xs`
      followed by those of `ys`. With `ResolveAllOne` this determines the
      entries of any id list. */
  lemma {:induction false} ResolveAllAppend(memos: seq<Note>, xs: seq<int>, ys: seq<int>)
    ensures ResolveAll(memos, xs + ys) == ResolveAll(memos, xs) + ResolveAll(memos, ys)
  {
    if xs == [] {
      assert xs + ys == ys;
    } else {
      assert (xs + ys)[0] == xs[0] && (xs + ys)[1..] == xs[1..] + ys;
      ResolveAllAppend(memos, xs[1..], ys);
    }
  }

  /** A pair link one of whose targets is gone shows only the other one. */
  lemma PairWithOneDeleted(memos: seq<Note>, a: Note, gone: int)
    requires GetLinkedMemo(memos, a.id) == Found(a)
    requires forall n :: n in memos ==> n.id != gone
    ensures GetLinkedMemos(memos, Many([a.id, gone])) == [Found(a)]
    ensures GetLinkedMemos(memos, Many([gone, a.id])) == [Found(a)]
    ensures LinkedTexts(memos, Many([gone, a.id])) == [EntryText(Found(a))]
  {
    ResolveAllAppend(memos, [a.id], [gone]);
    ResolveAllAppend(memos, [gone], [a.id]);
    assert [a.id] + [gone] == [a.id, gone];
    assert [gone] + [a.id] == [gone, a.id];
    ResolveAllOne(memos, a.id);
    ResolveAllOne(memos, gone);
  }

  /** `getLinkedMemos`: an array resolves id by id with misses dropped; a
      truthy single id resolves to exactly one entry, possibly Missing; an
      absent or null link, and the falsy id 0, resolve to nothing. */
  function GetLinkedMemos(memos: seq<Note>, link: Link): (r: seq<Resolved>)
    ensures link.NoLink? ==> r == []
    ensures link.Single? ==> (link.id == 0 <==> r == [])
    ensures link.Single? && link.id != 0 ==> r == [GetLinkedMemo(memos, link.id)]
    ensures link.Many? ==> r == ResolveAll(memos, link.ids)
    ensures Missing in r ==> link.Single?
  {
    match link
    case NoLink => []
    case Single(id) => if id != 0 then [GetLinkedMemo(memos, id)] else []
    case Many(ids) => ResolveAll(memos, ids)
  }

  /** The text shown for one linked entry: `linkedMemo?.content || '削除されたメモ'`
      (an empty content is falsy too). */
  function EntryText(e: Resolved): (text: string)
    ensures e.Missing? || e.note.content == "" ==> text == DeletedPlaceholder
    ensures e.Found? && e.note.content != "" ==> text == e.note.content
    ensures text != ""
  {
    if e.Found? && e.note.content != "" then e.note.content else DeletedPlaceholder
  }

  /** The texts listed under a note's link. */
  function LinkedTexts(memos: seq<Note>, link: Link): (texts: seq<string>)
    ensures |texts| == |GetLinkedMemos(memos, link)|
    ensures forall i :: 0 <= i < |texts| ==> texts[i] == EntryText(GetLinkedMemos(memos, link)[i])
  {
    var entries := GetLinkedMemos(memos, link);
    seq(|entries|, i requires 0 <= i < |entries| => EntryText(entries[i]))
  }

  /** A single link to a note that is gone shows the placeholder; an array
      link to notes that are all gone shows nothing. */
  lemma DeletedTargets(memos: seq<Note>, link: Link)
    requires link.Single? ==> link.id != 0 && forall n :: n in memos ==> n.id != link.id
    requires link.Many? ==> forall n, id :: n in memos && id in link.ids ==> n.id != id
    ensures link.Single? ==> LinkedTexts(memos, link) == [DeletedPlaceholder]
    ensures link.Many? ==> LinkedTexts(memos, link) == []
  {
    if link.Many? {
      ResolveAllNoneFound(memos, link.ids);
    }
  }

  /** With unique ids, looking up the id of a held note finds that note. */
  lemma LookupHeldNote(memos: seq<Note>, i: nat)
    requires UniqueIds(memos) && i < |memos|
    ensures GetLinkedMemo(memos, memos[i].id) == Found(memos[i])
  {
    var k := FirstIndex(memos, memos[i].id);
    assert k <= i;
  }

  /** Two notes linked as a pair resolve to both, in the order of the pair,
      when each is the first note carrying its id. */
  lemma PairResolvesInOrder(memos: seq<Note>, a: Note, b: Note)
    requires GetLinkedMemo(memos, a.id) == Found(a)
    requires GetLinkedMemo(memos, b.id) == Found(b)
    ensures GetLinkedMemos(memos, Many([a.id, b.id])) == [Found(a), Found(b)]
  {
    ResolveAllComplete(memos, [a.id, b.id], 0);
    ResolveAllComplete(memos, [a.id, b.id], 1);
  }

  // ---------------------------------------------------------------------
  // Citation source label

  const SourceDelimiter: char := '（'

  /** `source.split('（')[0]`: the part of the source before the first
      full-width opening parenthesis, or the whole source when it has none. */
  function SourceLabel(source: string): (prefix: string)
    ensures prefix <= source
    ensures SourceDelimiter !in prefix
    ensures |prefix| < |source| ==> source[|prefix|] == SourceDelimiter
  {
    if source == [] || source[0] == SourceDelimiter then []
    else [source[0]] + SourceLabel(source[1..])
  }

  /** The label is determined by its three properties: any prefix without the
      delimiter that ends at the delimiter or the end of the source is it. */
  lemma {:induction false} SourceLabelUnique(source: string, p: string)
    requires p <= source && SourceDelimiter !in p
    requires |p| < |source| ==> source[|p|] == SourceDelimiter
    ensures SourceLabel(source) == p
  {
    if p != [] {
      assert source[0] == p[0] && p[0] != SourceDelimiter;
      SourceLabelUnique(source[1..], p[1..]);
      assert p == [p[0]] + p[1..];
    }
  }

  /** Taking the label of a label changes nothing. */
  lemma SourceLabelIdempotent(source: string)
    ensures SourceLabel(SourceLabel(source)) == SourceLabel(source)
  {
    SourceLabelUnique(SourceLabel(source), SourceLabel(source));
  }

  /** The citation label shown on a note card: only for a highlight whose
      source is a non-empty string. */
  function ShownSourceLabel(n: Note): (caption: Option<string>)
    ensures caption.Some? <==> n.kind == Highlight && n.source.Some? && n.source.value != ""
    ensures caption.Some? ==> caption.value == SourceLabel(n.source.value)
  {
    if n.kind == Highlight && n.source.Some? && n.source.value != "" then Some(SourceLabel(n.source.value)) else None
  }

  /** The source text of the note-detail view and of the source-detail view
      (opened by clicking the card's label): the whole `source`, under the
      same condition as the card's label. */
  function SourceDetailText(n: Note): (detail: Option<string>)
    ensures detail.Some? <==> n.kind == Highlight && n.source.Some? && n.source.value != ""
    ensures detail.Some? ==> detail.value == n.source.value
  {
    if n.kind == Highlight && n.source.Some? && n.source.value != "" then n.source else None
  }

  /** Whenever a card shows a label, the detail views show the full source,
      of which the label is the beginning; the rest of the source, if any,
      starts with the delimiter. */
  lemma LabelIsPrefixOfDetail(n: Note)
    ensures ShownSourceLabel(n).Some? <==> SourceDetailText(n).Some?
    ensures ShownSourceLabel(n).Some? ==>
      var caption, detail := ShownSourceLabel(n).value, SourceDetailText(n).value;
      && caption <= detail
      && (|caption| < |detail| ==> detail[|caption|] == SourceDelimiter)
  {
  }

  /** A highlight citing "Book Title（Author）" shows "Book Title". */
  lemma SourceLabelScenario()
    ensures SourceLabel("Book Title（Author）") == "Book Title"
  {
    SourceLabelUnique("Book Title（Author）", "Book Title");
  }
}
