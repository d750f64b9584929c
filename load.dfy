/** etl/load.py: the loader that upserts every normalised record, keyed by its title. */
module Load {
  import opened Schema
  import opened Collection
  import opened Database

  /** The collection after the upserts of `batch`, issued one by one in list order. */
  function LoadAll(s: State, batch: seq<Book>): State
    decreases |batch|
  {
    if batch == [] then s
    else Upsert(LoadAll(s, batch[..|batch| - 1]), batch[|batch| - 1])
  }

  /** The position of the last record of `batch` whose title is `t`. */
  function LastIndexOf(batch: seq<Book>, t: string): (r: Option<nat>)
    ensures r.Some? ==> r.value < |batch| && batch[r.value].title == t
    ensures r.Some? ==> forall j :: r.value < j < |batch| ==> batch[j].title != t
    ensures r.None? ==> forall j :: 0 <= j < |batch| ==> batch[j].title != t
    decreases |batch|
  {
    if batch == [] then None
    else if batch[|batch| - 1].title == t then Some(|batch| - 1)
    else LastIndexOf(batch[..|batch| - 1], t)
  }

  /** The titles of `batch` that no document of `s` carries yet. */
  function NewTitles(s: State, batch: seq<Book>): (r: set<string>)
    ensures forall t :: t in r <==> LastIndexOf(batch, t).Some? && FindTitle(s.docs, t).None?
    decreases |batch|
  {
    if batch == [] then {}
    else
      var x := batch[|batch| - 1];
      NewTitles(s, batch[..|batch| - 1]) + (if FindTitle(s.docs, x.title).None? then {x.title} else {})
  }

  /** `load_data(data)`: one title-keyed upsert per record, in list order. */
  method LoadData(store: BookStore, data: seq<Book>)
    requires store.Valid()
    modifies store
    ensures store.Valid()
    ensures store.Contents() == LoadAll(old(store.Contents()), data)
  {
    for i := 0 to |data|
      invariant store.Valid()
      invariant store.Contents() == LoadAll(old(store.Contents()), data[..i])
    {
      assert data[..i + 1][..i] == data[..i];
      store.UpdateOneUpsert(data[i]);
    }
    assert data[..|data|] == data;
  }

  /**
   * Loading removes no document and moves none: every earlier document keeps its place, its
   * identifier and its title; identifiers stay unique, and so do titles when they were.
   */
  lemma {:induction false} LoadKeepsPrefix(s: State, batch: seq<Book>)
    ensures KeepsPrefix(s.docs, LoadAll(s, batch).docs)
    ensures Valid(s) ==> Valid(LoadAll(s, batch))
    ensures UniqueTitles(s.docs) ==> UniqueTitles(LoadAll(s, batch).docs)
    decreases |batch|
  {
    if batch != [] {
      LoadKeepsPrefix(s, batch[..|batch| - 1]);
    }
  }

  /**
   * Last write wins: for every title of the batch the collection holds a document with that
   * title, and the first such document carries the fields of the batch's last record with it.
   */
  lemma {:induction false} LoadLastWriteWins(s: State, batch: seq<Book>, t: string)
    requires LastIndexOf(batch, t).Some?
    ensures FindTitle(LoadAll(s, batch).docs, t).Some?
    ensures LoadAll(s, batch).docs[FindTitle(LoadAll(s, batch).docs, t).value].book
      == batch[LastIndexOf(batch, t).value]
    decreases |batch|
  {
    var p, x := batch[..|batch| - 1], batch[|batch| - 1];
    if x.title != t {
      assert LastIndexOf(batch, t) == LastIndexOf(p, t);
      LoadLastWriteWins(s, p, t);
      var before := LoadAll(s, p);
      var j := FindTitle(before.docs, t).value;
      FindTitleKept(before.docs, Upsert(before, x).docs, t);
      assert FindTitle(before.docs, x.title) != Some(j);
    }
  }

  /** After loading, a title is stored exactly when it was stored before or occurs in the batch. */
  lemma {:induction false} LoadPresent(s: State, batch: seq<Book>, t: string)
    ensures FindTitle(LoadAll(s, batch).docs, t).Some? <==>
      FindTitle(s.docs, t).Some? || LastIndexOf(batch, t).Some?
    decreases |batch|
  {
    if LastIndexOf(batch, t).Some? {
      LoadLastWriteWins(s, batch, t);
    } else if FindTitle(s.docs, t).Some? {
      LoadKeepsPrefix(s, batch);
      FindTitleKept(s.docs, LoadAll(s, batch).docs, t);
    } else if batch != [] {
      var p, x := batch[..|batch| - 1], batch[|batch| - 1];
      assert LastIndexOf(batch, t) == LastIndexOf(p, t);
      LoadPresent(s, p, t);
      var before := LoadAll(s, p);
      FindTitleKept(before.docs, Upsert(before, x).docs, t);
    }
  }

  /**
   * A document loaded over keeps its place and identifier; it takes the fields of the batch's
   * last record with its title when it is the first document with that title, and is
   * unchanged otherwise, in particular when the batch does not mention its title.
   */
  lemma {:induction false} LoadKeepsOldDocs(s: State, batch: seq<Book>, i: nat)
    requires i < |s.docs|
    ensures i < |LoadAll(s, batch).docs|
    ensures LoadAll(s, batch).docs[i].id == s.docs[i].id
    ensures LoadAll(s, batch).docs[i].book ==
      var t := s.docs[i].book.title;
      if FindTitle(s.docs, t) == Some(i) && LastIndexOf(batch, t).Some?
      then batch[LastIndexOf(batch, t).value]
      else s.docs[i].book
    decreases |batch|
  {
    LoadKeepsPrefix(s, batch);
    if batch != [] {
      var p, x := batch[..|batch| - 1], batch[|batch| - 1];
      var t := s.docs[i].book.title;
      LoadKeepsOldDocs(s, p, i);
      var before := LoadAll(s, p);
      LoadKeepsPrefix(s, p);
      assert before.docs[i].book.title == t;
      if FindTitle(s.docs, t) == Some(i) {
        FindTitleKept(s.docs, before.docs, t);
      } else {
        if FindTitle(before.docs, t) == Some(i) {
          FindTitleKept(s.docs, before.docs, t);
        }
      }
      if x.title != t {
        assert LastIndexOf(batch, t) == LastIndexOf(p, t);
      }
    }
  }

  /**
   * The collection grows by exactly the number of distinct batch titles it did not hold, and
   * the counter of fresh identifiers advances by as much.
   */
  lemma {:induction false} LoadGrowth(s: State, batch: seq<Book>)
    ensures |LoadAll(s, batch).docs| == |s.docs| + |NewTitles(s, batch)|
    ensures LoadAll(s, batch).next == s.next + |NewTitles(s, batch)|
    decreases |batch|
  {
    if batch != [] {
      var p, x := batch[..|batch| - 1], batch[|batch| - 1];
      LoadGrowth(s, p);
      LoadPresent(s, p, x.title);
      var before := LoadAll(s, p);
      var grown := NewTitles(s, p);
      if FindTitle(before.docs, x.title).Some? {
        if FindTitle(s.docs, x.title).None? {
          assert x.title in grown;
          assert grown + {x.title} == grown;
        }
      } else {
        assert x.title !in grown;
        assert |grown + {x.title}| == |grown| + 1;
      }
    }
  }

  /** Each document the batch adds takes the next fresh identifier in turn. */
  lemma {:induction false} LoadNewIds(s: State, batch: seq<Book>, j: nat)
    requires |s.docs| <= j < |LoadAll(s, batch).docs|
    ensures LoadAll(s, batch).docs[j].id == s.next + (j - |s.docs|)
    decreases |batch|
  {
    var p, x := batch[..|batch| - 1], batch[|batch| - 1];
    var before := LoadAll(s, p);
    LoadGrowth(s, p);
    if j < |before.docs| {
      LoadNewIds(s, p, j);
    }
  }

  /** Each document the batch adds carries one of the batch's titles the collection did not hold. */
  lemma {:induction false} LoadNewTitles(s: State, batch: seq<Book>, j: nat)
    requires |s.docs| <= j < |LoadAll(s, batch).docs|
    ensures LoadAll(s, batch).docs[j].book.title in NewTitles(s, batch)
    decreases |batch|
  {
    var p, x := batch[..|batch| - 1], batch[|batch| - 1];
    var before := LoadAll(s, p);
    if j < |before.docs| {
      LoadNewTitles(s, p, j);
      var t := before.docs[j].book.title;
      if t != x.title {
        assert LastIndexOf(batch, t) == LastIndexOf(p, t);
      }
    } else {
      LoadPresent(s, p, x.title);
    }
  }

  /** Each document the batch adds holds the fields of one of the batch's records. */
  lemma {:induction false} LoadNewBooks(s: State, batch: seq<Book>, j: nat)
    requires |s.docs| <= j < |LoadAll(s, batch).docs|
    ensures LoadAll(s, batch).docs[j].book in batch
    decreases |batch|
  {
    var p, x := batch[..|batch| - 1], batch[|batch| - 1];
    var before := LoadAll(s, p);
    if j < |before.docs| && FindTitle(before.docs, x.title) != Some(j) {
      LoadNewBooks(s, p, j);
      assert before.docs[j].book in p;
    }
  }

  /** Loading the same batch a second time changes nothing, identifiers included. */
  lemma LoadIdempotent(s: State, batch: seq<Book>)
    ensures LoadAll(LoadAll(s, batch), batch) == LoadAll(s, batch)
  {
    var r := LoadAll(s, batch);
    var r2 := LoadAll(r, batch);
    forall t | t in NewTitles(r, batch) ensures FindTitle(r.docs, t).Some? {
      LoadPresent(s, batch, t);
    }
    assert NewTitles(r, batch) == {};
    LoadGrowth(r, batch);
    forall i | 0 <= i < |r.docs| ensures r2.docs[i] == r.docs[i] {
      LoadKeepsOldDocs(r, batch, i);
      var t := r.docs[i].book.title;
      if FindTitle(r.docs, t) == Some(i) && LastIndexOf(batch, t).Some? {
        LoadLastWriteWins(s, batch, t);
      }
    }
  }
}
