/**
 * The `books` collection as plain values: documents in natural (insertion) order, each with
 * its identifier, and the next fresh identifier. Every write the repository issues is given
 * here as a function from the old collection to the new one.
 */
module Collection {
  import opened Schema

  /** A stored document: its `_id` and the three fields of models/schema.py. */
  datatype Doc = Doc(id: Id, book: Book)

  datatype State = State(docs: seq<Doc>, next: Id)

  /** Identifiers are unique, and every identifier in use was drawn before `next`. */
  predicate Valid(s: State)
  {
    (forall i, j :: 0 <= i < j < |s.docs| ==> s.docs[i].id != s.docs[j].id)
    && (forall i :: 0 <= i < |s.docs| ==> s.docs[i].id < s.next)
  }

  /** At most one document per title: the invariant the title-keyed upsert is meant to keep. */
  predicate UniqueTitles(docs: seq<Doc>)
  {
    forall i, j :: 0 <= i < j < |docs| ==> docs[i].book.title != docs[j].book.title
  }

  /** The first document, in natural order, whose title is `t`: what `{"title": t}` matches. */
  function FindTitle(docs: seq<Doc>, t: string): (r: Option<nat>)
    ensures r.Some? ==> r.value < |docs| && docs[r.value].book.title == t
    ensures r.Some? ==> forall j :: 0 <= j < r.value ==> docs[j].book.title != t
    ensures r.None? ==> forall j :: 0 <= j < |docs| ==> docs[j].book.title != t
  {
    if docs == [] then None
    else if docs[0].book.title == t then Some(0)
    else match FindTitle(docs[1..], t)
      case Some(j) => Some(j + 1)
      case None => None
  }

  /** The document whose identifier is `id`: what `{"_id": id}` matches. */
  function FindId(docs: seq<Doc>, id: Id): (r: Option<nat>)
    ensures r.Some? ==> r.value < |docs| && docs[r.value].id == id
    ensures r.Some? ==> forall j :: 0 <= j < r.value ==> docs[j].id != id
    ensures r.None? ==> forall j :: 0 <= j < |docs| ==> docs[j].id != id
  {
    if docs == [] then None
    else if docs[0].id == id then Some(0)
    else match FindId(docs[1..], id)
      case Some(j) => Some(j + 1)
      case None => None
  }

  /** `r` still holds every document of `u`, at the same place, with the same id and title. */
  predicate KeepsPrefix(u: seq<Doc>, r: seq<Doc>)
  {
    |u| <= |r| && forall i :: 0 <= i < |u| ==> r[i].id == u[i].id && r[i].book.title == u[i].book.title
  }

  /** A title found among the kept documents is still found there. */
  lemma FindTitleKept(u: seq<Doc>, r: seq<Doc>, t: string)
    requires KeepsPrefix(u, r)
    ensures FindTitle(u, t).Some? ==> FindTitle(r, t) == FindTitle(u, t)
    ensures FindTitle(u, t).None? ==> FindTitle(r, t).None? || FindTitle(r, t).value >= |u|
  {
    if FindTitle(u, t).Some? {
      var i := FindTitle(u, t).value;
      assert r[i].book.title == t;
    } else {
      assert forall j :: 0 <= j < |u| ==> r[j].book.title != t;
    }
  }

  /**
   * `update_one({"title": b.title}, {"$set": b}, upsert=True)`: when a document has the
   * title, the first such document takes all of `b`'s fields and keeps its identifier;
   * otherwise one document with a fresh identifier and `b`'s fields is appended.
   */
  function Upsert(s: State, b: Book): (r: State)
    ensures KeepsPrefix(s.docs, r.docs)
    ensures forall i :: 0 <= i < |s.docs| && FindTitle(s.docs, b.title) != Some(i) ==> r.docs[i] == s.docs[i]
    ensures FindTitle(r.docs, b.title).Some? && r.docs[FindTitle(r.docs, b.title).value].book == b
    ensures FindTitle(s.docs, b.title).Some? ==> |r.docs| == |s.docs| && r.next == s.next
    ensures FindTitle(s.docs, b.title).None? ==>
      |r.docs| == |s.docs| + 1 && r.docs[|s.docs|] == Doc(s.next, b) && r.next == s.next + 1
    ensures Valid(s) ==> Valid(r)
    ensures UniqueTitles(s.docs) ==> UniqueTitles(r.docs)
  {
    match FindTitle(s.docs, b.title)
    case Some(i) =>
      var r := State(s.docs[i := Doc(s.docs[i].id, b)], s.next);
      FindTitleKept(s.docs, r.docs, b.title);
      r
    case None =>
      var r := State(s.docs + [Doc(s.next, b)], s.next + 1);
      FindTitleKept(s.docs, r.docs, b.title);
      assert r.docs[|s.docs|].book.title == b.title;
      r
  }

  /** `insert_one(b)`: one document with a fresh identifier is appended, every other is kept. */
  function Insert(s: State, b: Book): (r: State)
    ensures r.docs == s.docs + [Doc(s.next, b)] && r.next == s.next + 1
    ensures Valid(s) ==> Valid(r) && FindId(s.docs, s.next).None? && FindId(r.docs, s.next) == Some(|s.docs|)
  {
    var r := State(s.docs + [Doc(s.next, b)], s.next + 1);
    assert r.docs[|s.docs|].id == s.next;
    r
  }

  /**
   * `update_one({"_id": id}, {"$set": b})`: the document with that identifier takes all of
   * `b`'s fields and keeps its identifier and its place; no document matches, nothing changes.
   */
  function SetById(s: State, id: Id, b: Book): (r: State)
    ensures r.next == s.next && |r.docs| == |s.docs|
    ensures forall i :: 0 <= i < |s.docs| ==> r.docs[i].id == s.docs[i].id
    ensures forall i :: 0 <= i < |s.docs| && s.docs[i].id != id ==> r.docs[i] == s.docs[i]
    ensures FindId(s.docs, id).Some? ==> r.docs[FindId(s.docs, id).value] == Doc(id, b)
    ensures FindId(s.docs, id).None? ==> r == s
    ensures Valid(s) ==> Valid(r)
  {
    match FindId(s.docs, id)
    case Some(i) => State(s.docs[i := Doc(id, b)], s.next)
    case None => s
  }

  /**
   * `delete_one({"_id": id})`: the document with that identifier is removed, the others stay
   * in their order; no document matches, nothing changes.
   */
  function DeleteById(s: State, id: Id): (r: State)
    ensures r.next == s.next
    ensures FindId(s.docs, id).Some? ==> |r.docs| == |s.docs| - 1
    ensures FindId(s.docs, id).Some? ==> forall j :: 0 <= j < |r.docs| ==>
      r.docs[j] == s.docs[if j < FindId(s.docs, id).value then j else j + 1]
    ensures FindId(s.docs, id).None? ==> r == s
    ensures Valid(s) ==> Valid(r) && FindId(r.docs, id).None?
    ensures Valid(s) ==> forall d :: d in r.docs <==> d in s.docs && d.id != id
  {
    match FindId(s.docs, id)
    case Some(i) =>
      var r := State(s.docs[..i] + s.docs[i + 1..], s.next);
      assert forall j :: 0 <= j < |r.docs| ==> r.docs[j] == s.docs[if j < i then j else j + 1];
      r
    case None => s
  }
}
