/**
  The document manager of pkg/lsp/documents.go: documents updated in place, with a line cache,
  refining plain splicing of texts.
 */
module Documents {
  import opened Bytes
  import opened Positions

  /** A content change: a whole new text, or a text for a range. */
  datatype Change =
    | Full(text: bytes)
    | Ranged(start: Position, end: Position, text: bytes)

  // ---------------------------------------------------------------- plain splicing

  /** Where a position points in a text; past the last line it points beyond the end. */
  function OffsetAt(s: bytes, pos: Position): nat {
    var start := LineStart(s, pos.line);
    if start == -1 then |s| + 1
    else if start + pos.character < LineEnd(s, start) then start + pos.character
    else LineEnd(s, start)
  }

  /** `s` with the bytes from `a` to `b` replaced; `b` past the end means the end. */
  function Splice(s: bytes, a: nat, b: nat, text: bytes): bytes
    requires a <= |s|
  {
    s[..a] + text + if b < |s| then s[b..] else []
  }

  /** The range starts on a line of the document; the source slices past the end for any other. */
  predicate Applicable(s: bytes, change: Change) {
    change.Ranged? ==> LineStart(s, change.start.line) != -1
  }

  function Edit(s: bytes, change: Change): bytes
    requires Applicable(s, change)
  {
    match change
    case Full(text) => text
    case Ranged(start, end, text) => Splice(s, OffsetAt(s, start), OffsetAt(s, end), text)
  }

  predicate AllApplicable(s: bytes, changes: seq<Change>)
    decreases |changes|
  {
    changes == [] || (Applicable(s, changes[0]) && AllApplicable(Edit(s, changes[0]), changes[1..]))
  }

  function EditAll(s: bytes, changes: seq<Change>): bytes
    requires AllApplicable(s, changes)
    decreases |changes|
  {
    if changes == [] then s else EditAll(Edit(s, changes[0]), changes[1..])
  }

  // ---------------------------------------------------------------- the line cache finds the offsets

  lemma LineStartExists(s: bytes, line: nat)
    ensures LineStart(s, line) != -1 <==> line < |Lines(s, 0)|
  {
    LinesFit(s, 0);
    SkipIsLine(s, 0, line);
  }

  lemma OffsetAtPointsTo(s: bytes, pos: Position)
    requires LineStart(s, pos.line) != -1
    ensures PointsTo(s, pos.line, pos.character, OffsetAt(s, pos))
  {
    SkipIsLine(s, 0, pos.line);
    SameLine(s, LineStart(s, pos.line), OffsetAt(s, pos));
  }

  /** The cached lines give the offset the position has in the text. */
  lemma CacheFindsOffset(s: bytes, pos: Position)
    ensures PositionToOffsetOf(Lines(s, 0), pos.line, pos.character) == OffsetAt(s, pos)
  {
    LineStartExists(s, pos.line);
    PositionIsOffset(s, pos.line, pos.character);
    if LineStart(s, pos.line) != -1 {
      OffsetAtPointsTo(s, pos);
      var o := PositionToOffsetOf(Lines(s, 0), pos.line, pos.character);
      PointsToInOrder(s, pos.line, pos.character, o, pos.line, pos.character, OffsetAt(s, pos));
      PointsToInOrder(s, pos.line, pos.character, OffsetAt(s, pos), pos.line, pos.character, o);
    }
  }

  /** A ranged change can be applied exactly when its start has an offset inside the text. */
  lemma ApplicableExactly(s: bytes, change: Change)
    requires change.Ranged?
    ensures Applicable(s, change) <==> PositionToOffsetOf(Lines(s, 0), change.start.line, change.start.character) <= |s|
  {
    CacheFindsOffset(s, change.start);
  }

  /** Positions in order have offsets in order. */
  lemma OffsetsInOrder(s: bytes, p: Position, q: Position)
    requires LineStart(s, p.line) != -1 && AtOrBefore(p, q)
    ensures OffsetAt(s, p) <= OffsetAt(s, q) && OffsetAt(s, p) <= |s|
  {
    OffsetAtPointsTo(s, p);
    if LineStart(s, q.line) != -1 {
      OffsetAtPointsTo(s, q);
      PointsToInOrder(s, p.line, p.character, OffsetAt(s, p), q.line, q.character, OffsetAt(s, q));
    }
  }

  /**
    `r` is `s` with what lies between the ends of the range replaced: the text `before` the start
    and the text `after` the end (nothing, when the end is past the last line) stay.
   */
  ghost predicate Replaces(s: bytes, change: Change, before: bytes, gone: bytes, after: bytes, r: bytes)
    requires change.Ranged?
  {
    && s == before + gone + after
    && r == before + change.text + after
    && PointsTo(s, change.start.line, change.start.character, |before|)
    && if LineStart(s, change.end.line) == -1 then after == []
       else PointsTo(s, change.end.line, change.end.character, |before| + |gone|)
  }

  lemma ThreeParts(s: bytes, a: nat, e: nat)
    requires a <= e <= |s|
    ensures s == s[..a] + s[a..e] + s[e..]
  {
  }

  /** A ranged change that does not end before it starts replaces exactly what is in its range. */
  lemma EditReplacesRange(s: bytes, change: Change) returns (before: bytes, gone: bytes, after: bytes)
    requires change.Ranged? && Applicable(s, change) && AtOrBefore(change.start, change.end)
    ensures Replaces(s, change, before, gone, after, Edit(s, change))
  {
    var a, b := OffsetAt(s, change.start), OffsetAt(s, change.end);
    OffsetsInOrder(s, change.start, change.end);
    OffsetAtPointsTo(s, change.start);
    if LineStart(s, change.end.line) != -1 { OffsetAtPointsTo(s, change.end); }
    var e := if b < |s| then b else |s|;
    before, gone, after := s[..a], s[a..e], s[e..];
    ThreeParts(s, a, e);
  }

  // ---------------------------------------------------------------- what a list of changes does

  /**
    `r` has the text of a ranged change between what stands `before` its start in `s` and what
    stands `after` its end, in whichever order these are; an end past the last line is the end.
   */
  ghost predicate Around(s: bytes, change: Change, before: bytes, after: bytes, r: bytes)
    requires change.Ranged?
  {
    && |before| <= |s| && before == s[..|before|] && |after| <= |s| && after == s[|s| - |after|..]
    && PointsTo(s, change.start.line, change.start.character, |before|)
    && (if LineStart(s, change.end.line) == -1 then after == []
        else PointsTo(s, change.end.line, change.end.character, |s| - |after|))
    && r == before + change.text + after
  }

  lemma EditIsAround(s: bytes, change: Change) returns (before: bytes, after: bytes)
    requires change.Ranged? && Applicable(s, change)
    ensures Around(s, change, before, after, Edit(s, change))
  {
    var a, b := OffsetAt(s, change.start), OffsetAt(s, change.end);
    OffsetAtPointsTo(s, change.start);
    if LineStart(s, change.end.line) != -1 { OffsetAtPointsTo(s, change.end); }
    before, after := s[..a], if b < |s| then s[b..] else [];
  }

  /** One change leads to `r`: to the given text, or to the text before with its range replaced. */
  ghost predicate LeadsTo(s: bytes, change: Change, r: bytes) {
    && (change.Full? ==> r == change.text)
    && (change.Ranged? ==> exists before, after :: Around(s, change, before, after, r))
  }

  /** Change `i` leads from text `i` to the next one. */
  ghost predicate Linked(texts: seq<bytes>, changes: seq<Change>, i: nat) {
    i < |changes| && i + 1 < |texts| && LeadsTo(texts[i], changes[i], texts[i + 1])
  }

  lemma EditLeadsTo(s: bytes, change: Change)
    requires Applicable(s, change)
    ensures LeadsTo(s, change, Edit(s, change))
  {
    if change.Ranged? {
      var before, after := EditIsAround(s, change);
    }
  }

  lemma LinkedCons(s: bytes, texts: seq<bytes>, changes: seq<Change>, i: nat)
    requires changes != [] && texts != []
    requires if i == 0 then LeadsTo(s, changes[0], texts[0]) else Linked(texts, changes[1..], i - 1)
    ensures Linked([s] + texts, changes, i)
  {
    if i > 0 { assert changes[1..][i - 1] == changes[i]; }
  }

  lemma AllLinkedCons(s: bytes, texts: seq<bytes>, changes: seq<Change>)
    requires changes != [] && texts != [] && LeadsTo(s, changes[0], texts[0])
    requires forall i :: 0 <= i < |changes| - 1 ==> Linked(texts, changes[1..], i)
    ensures forall i :: 0 <= i < |changes| ==> Linked([s] + texts, changes, i)
  {
    forall i | 0 <= i < |changes|
      ensures Linked([s] + texts, changes, i)
    {
      if i > 0 { assert Linked(texts, changes[1..], i - 1); }
      LinkedCons(s, texts, changes, i);
    }
  }

  /** Every list of changes goes from text to text, one for each change and in their order. */
  lemma {:induction false} EditsOneByOne(s: bytes, changes: seq<Change>) returns (texts: seq<bytes>)
    requires AllApplicable(s, changes)
    ensures |texts| == |changes| + 1 && texts[0] == s && texts[|changes|] == EditAll(s, changes)
    ensures forall i :: 0 <= i < |changes| ==> Linked(texts, changes, i)
    decreases |changes|
  {
    if changes == [] {
      texts := [s];
    } else {
      var rest := EditsOneByOne(Edit(s, changes[0]), changes[1..]);
      EditLeadsTo(s, changes[0]);
      AllLinkedCons(s, rest, changes);
      texts := [s] + rest;
    }
  }

  /** What stood before the last full text does not matter. */
  lemma {:induction false} FullTextWins(s: bytes, changes: seq<Change>, k: nat)
    requires AllApplicable(s, changes) && k < |changes| && changes[k].Full?
    ensures AllApplicable(changes[k].text, changes[k + 1..])
    ensures EditAll(s, changes) == EditAll(changes[k].text, changes[k + 1..])
    decreases k
  {
    if k > 0 {
      FullTextWins(Edit(s, changes[0]), changes[1..], k - 1);
      assert changes[1..][k..] == changes[k + 1..];
    }
  }

  // ---------------------------------------------------------------- the documents

  /** What the manager holds of a document, without the cache. */
  datatype Doc = Doc(languageID: bytes, version: int, content: bytes)

  class Document {
    var languageID: bytes
    var version: int
    var content: bytes
    var lines: seq<bytes>

    ghost function Abs(): Doc
      reads this
    {
      Doc(languageID, version, content)
    }

    /** The cache is the content split at its newlines. */
    ghost predicate Cached()
      reads this
    {
      lines == Lines(content, 0)
    }

    constructor (languageID: bytes, version: int, content: bytes)
      ensures Abs() == Doc(languageID, version, content) && Cached()
    {
      this.languageID, this.version, this.content := languageID, version, content;
      new;
      lines := SplitLines(content);
    }

    /** `Update`, once the document is found. */
    method Change(version: int, changes: seq<Change>)
      requires Cached() && AllApplicable(content, changes)
      modifies this
      ensures Cached() && Abs() == old(Abs()).(version := version, content := EditAll(old(content), changes))
    {
      this.version := version;
      ApplyAll(changes);
    }

    /** The loop of `Update` over the changes. */
    method ApplyAll(changes: seq<Change>)
      requires Cached() && AllApplicable(content, changes)
      modifies this`content, this`lines
      ensures Cached() && content == EditAll(old(content), changes)
    {
      for i := 0 to |changes|
        invariant Cached() && AllApplicable(content, changes[i..])
        invariant EditAll(content, changes[i..]) == EditAll(old(content), changes)
      {
        assert changes[i..][1..] == changes[i + 1..];
        if changes[i].Full? {
          content := changes[i].text;
          lines := SplitLines(changes[i].text);
        } else {
          content := ApplyChange(content, lines, changes[i]);
          lines := SplitLines(content);
        }
      }
    }
  }

  /** `splitLines`; the library's split is `Lines`. */
  function SplitLines(content: bytes): (lines: seq<bytes>)
    ensures lines == Lines(content, 0)
  {
    if content == [] then [[]] else Lines(content, 0)
  }

  /** `applyChange` */
  method ApplyChange(content: bytes, lines: seq<bytes>, change: Change) returns (r: bytes)
    requires lines == Lines(content, 0) && Applicable(content, change)
    ensures r == Edit(content, change)
  {
    if change.Full? {
      return change.text;
    }
    var startOffset := PositionToOffset(lines, change.start.line, change.start.character);
    var endOffset := PositionToOffset(lines, change.end.line, change.end.character);
    CacheFindsOffset(content, change.start);
    CacheFindsOffset(content, change.end);
    r := content[..startOffset] + change.text;
    if endOffset < |content| {
      r := r + content[endOffset..];
    }
  }

  // ---------------------------------------------------------------- the manager

  type Store = map<bytes, Doc>

  datatype Event =
    | Open(uri: bytes, languageID: bytes, version: int, content: bytes)
    | Update(uri: bytes, version: int, changes: seq<Change>)
    | Close(uri: bytes)

  /** What the client promises: its ranged changes start on a line of the text they are made for. */
  predicate Welcome(m: Store, e: Event) {
    e.Update? && e.uri in m ==> AllApplicable(m[e.uri].content, e.changes)
  }

  /** A session of plain texts. */
  function Next(m: Store, e: Event): Store
    requires Welcome(m, e)
  {
    match e
    case Open(uri, languageID, version, content) => m[uri := Doc(languageID, version, content)]
    case Update(uri, version, changes) =>
      if uri !in m then m
      else m[uri := m[uri].(version := version, content := EditAll(m[uri].content, changes))]
    case Close(uri) => m - {uri}
  }

  /** What one event does to every document. */
  lemma NextExactly(m: Store, e: Event, uri: bytes)
    requires Welcome(m, e)
    ensures e.Open? && e.uri == uri ==> uri in Next(m, e) && Next(m, e)[uri] == Doc(e.languageID, e.version, e.content)
    ensures e.Close? && e.uri == uri ==> uri !in Next(m, e)
    ensures e.Update? && e.uri == uri && uri in m ==>
              && uri in Next(m, e)
              && Next(m, e)[uri] == Doc(m[uri].languageID, e.version, EditAll(m[uri].content, e.changes))
    ensures e.uri != uri || (e.Update? && uri !in m) ==>
              (uri in Next(m, e) <==> uri in m) && (uri in m ==> Next(m, e)[uri] == m[uri])
  {
  }

  predicate AllWelcome(m: Store, es: seq<Event>)
    decreases |es|
  {
    es == [] || (Welcome(m, es[0]) && AllWelcome(Next(m, es[0]), es[1..]))
  }

  function Session(m: Store, es: seq<Event>): Store
    requires AllWelcome(m, es)
    decreases |es|
  {
    if es == [] then m else Session(Next(m, es[0]), es[1..])
  }

  /** No two documents share an object. */
  ghost predicate Separate(documents: map<bytes, Document>) {
    forall u, v :: u in documents && v in documents && u != v ==> documents[u] != documents[v]
  }

  lemma SeparateInsert(documents: map<bytes, Document>, uri: bytes, doc: Document)
    requires Separate(documents) && doc !in documents.Values
    ensures Separate(documents[uri := doc])
  {
  }

  /** The objects hold what `store` says, and every line cache is up to date. */
  ghost predicate Told(documents: map<bytes, Document>, store: Store)
    reads documents.Values
  {
    && store.Keys == documents.Keys
    && forall u :: u in documents ==> documents[u].Abs() == store[u] && documents[u].Cached()
  }

  class DocumentManager {
    var documents: map<bytes, Document>
    /** The plain texts the objects stand for. */
    ghost var store: Store

    ghost predicate Valid()
      reads this, documents.Values
    {
      Separate(documents) && Told(documents, store)
    }

    constructor ()
      ensures Valid() && store == map[]
    {
      documents, store := map[], map[];
    }

    method OpenDocument(uri: bytes, languageID: bytes, version: int, content: bytes) returns (ghost doc: Document)
      requires Valid()
      modifies this
      ensures Valid() && store == Next(old(store), Open(uri, languageID, version, content))
      ensures fresh(doc) && documents == old(documents)[uri := doc]
    {
      var created := new Document(languageID, version, content);
      Put(uri, created);
      doc := created;
    }

    method Put(uri: bytes, doc: Document)
      requires Valid() && doc !in documents.Values && doc.Cached()
      modifies this
      ensures Valid() && store == old(store)[uri := doc.Abs()] && documents == old(documents)[uri := doc]
    {
      SeparateInsert(documents, uri, doc);
      documents := documents[uri := doc];
      store := store[uri := doc.Abs()];
    }

    method UpdateDocument(uri: bytes, version: int, changes: seq<Change>)
      requires Valid() && Welcome(store, Update(uri, version, changes))
      modifies this`store, documents.Values
      ensures Valid() && store == Next(old(store), Update(uri, version, changes))
    {
      if uri !in documents {
        return;
      }
      documents[uri].Change(version, changes);
      store := store[uri := documents[uri].Abs()];
    }

    method CloseDocument(uri: bytes)
      requires Valid()
      modifies this
      ensures Valid() && store == Next(old(store), Close(uri)) && documents == old(documents) - {uri}
    {
      documents := documents - {uri};
      store := store - {uri};
    }

    /** `Get`: a copy, which later updates do not touch. */
    method Get(uri: bytes) returns (doc: Document?)
      requires Valid()
      ensures doc == null <==> uri !in store
      ensures doc != null ==> fresh(doc) && doc.Abs() == store[uri] && doc.Cached()
    {
      if uri !in documents {
        return null;
      }
      var d := documents[uri];
      doc := new Document(d.languageID, d.version, d.content);
      doc.lines := d.lines;
    }

    method GetContent(uri: bytes) returns (content: bytes, ok: bool)
      requires Valid()
      ensures ok <==> uri in store
      ensures content == if ok then store[uri].content else []
    {
      if uri !in documents {
        return [], false;
      }
      return documents[uri].content, true;
    }

    /** The server's message loop over the document notifications of a session. */
    method RunSession(es: seq<Event>)
      requires Valid() && AllWelcome(store, es)
      modifies this, documents.Values
      ensures Valid() && store == Session(old(store), es)
    {
      for i := 0 to |es|
        invariant Valid() && AllWelcome(store, es[i..]) && Session(store, es[i..]) == Session(old(store), es)
        invariant forall u :: u in documents ==> documents[u] in old(documents).Values || fresh(documents[u])
      {
        assert es[i..][1..] == es[i + 1..];
        match es[i]
        case Open(uri, languageID, version, content) =>
          ghost var doc := OpenDocument(uri, languageID, version, content);
        case Update(uri, version, changes) => UpdateDocument(uri, version, changes);
        case Close(uri) => CloseDocument(uri);
      }
    }
  }

  // ---------------------------------------------------------------- whole-document formatting

  /** The one edit of `handleFormatting`: from the start to the end of the last line. */
  function WholeDocument(lines: seq<bytes>, formatted: bytes): Change
    requires lines != []
  {
    Ranged(Position(0, 0), Position(|lines| - 1, |lines[|lines| - 1]|), formatted)
  }

  /** Applied to the document it was made for, it leaves exactly the formatted text. */
  lemma FormattingReplacesAll(s: bytes, formatted: bytes)
    ensures var edit := WholeDocument(Lines(s, 0), formatted);
            Applicable(s, edit) && AtOrBefore(edit.start, edit.end) && Edit(s, edit) == formatted
  {
    var lines := Lines(s, 0);
    var n := |lines| - 1;
    LinesFit(s, 0);
    CacheFindsOffset(s, Position(n, |lines[n]|));
    assert Before(lines, n + 1) == Before(lines, n) + |lines[n]| + 1;
    assert s[..0] + formatted + [] == formatted;
  }
}
