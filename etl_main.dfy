/** main.py: the startup hook that runs extract, transform and load once. */
module EtlMain {
  import opened Schema
  import opened Text
  import opened Collection
  import opened Database
  import opened Transform
  import opened Load

  /** The collection after one run over the extracted records `extracted`. */
  function EtlRun(s: State, extracted: seq<Book>): State
  {
    if extracted == [] then s else LoadAll(s, Normalised(extracted))
  }

  /**
   * `run_etl()`, with the list `extract_data()` returned given as `extracted`: an empty list
   * stops the run before anything is written; otherwise the list is normalised in place and
   * loaded.
   */
  method RunEtl(store: BookStore, extracted: seq<Book>)
    requires store.Valid()
    modifies store
    ensures store.Valid()
    ensures store.Contents() == EtlRun(old(store.Contents()), extracted)
    ensures extracted == [] ==> store.Contents() == old(store.Contents())
  {
    var data := new Book[|extracted|](i requires 0 <= i < |extracted| => extracted[i]);
    assert data[..] == extracted;
    if data.Length > 0 {
      var transformedData := TransformData(data);
      LoadData(store, transformedData[..]);
    }
  }

  /** Running the pipeline a second time on the same extracted records changes nothing. */
  lemma EtlIdempotent(s: State, extracted: seq<Book>)
    ensures EtlRun(EtlRun(s, extracted), extracted) == EtlRun(s, extracted)
  {
    if extracted != [] {
      LoadIdempotent(s, Normalised(extracted));
    }
  }

  /**
   * The upsert key is the capitalised title: after a run the collection holds a document
   * titled `Capitalize(title)` for every extracted record, and the first such document
   * carries the normalised fields of the last extracted record with that key.
   */
  lemma EtlStoresUnderCapitalisedTitle(s: State, extracted: seq<Book>, k: nat)
    requires k < |extracted|
    ensures var key := Capitalize(extracted[k].title);
      FindTitle(EtlRun(s, extracted).docs, key).Some?
      && LastIndexOf(Normalised(extracted), key).Some?
      && EtlRun(s, extracted).docs[FindTitle(EtlRun(s, extracted).docs, key).value].book
         == Normalise(extracted[LastIndexOf(Normalised(extracted), key).value])
  {
    var batch := Normalised(extracted);
    var key := Capitalize(extracted[k].title);
    assert batch[k].title == key;
    LoadLastWriteWins(s, batch, key);
  }

  /**
   * A document already stored under the capitalised key is updated in place: it keeps its
   * place and identifier, and remains the first document with that title.
   */
  lemma EtlUpdatesStoredKey(s: State, extracted: seq<Book>, k: nat, i: nat)
    requires k < |extracted|
    requires FindTitle(s.docs, Capitalize(extracted[k].title)) == Some(i)
    ensures i < |EtlRun(s, extracted).docs|
    ensures EtlRun(s, extracted).docs[i].id == s.docs[i].id
    ensures FindTitle(EtlRun(s, extracted).docs, Capitalize(extracted[k].title)) == Some(i)
  {
    var batch := Normalised(extracted);
    LoadKeepsPrefix(s, batch);
    FindTitleKept(s.docs, LoadAll(s, batch).docs, Capitalize(extracted[k].title));
  }

  /**
   * A run changes only documents whose title is the capitalised title of some extracted
   * record; in particular it never touches a document whose title is not capitalised.
   */
  lemma EtlTouchesOnlyNormalisedTitles(s: State, extracted: seq<Book>, i: nat)
    requires i < |s.docs|
    requires forall k :: 0 <= k < |extracted| ==> Capitalize(extracted[k].title) != s.docs[i].book.title
    ensures i < |EtlRun(s, extracted).docs| && EtlRun(s, extracted).docs[i] == s.docs[i]
  {
    if extracted != [] {
      var batch := Normalised(extracted);
      LoadKeepsOldDocs(s, batch, i);
      forall k | 0 <= k < |batch| ensures batch[k].title != s.docs[i].book.title {
        assert batch[k].title == Capitalize(extracted[k].title);
      }
    }
  }

  /** Documents that were stored through the API under an uncapitalised title survive every run. */
  lemma EtlKeepsUncapitalisedTitles(s: State, extracted: seq<Book>, i: nat)
    requires i < |s.docs|
    requires !IsCapitalized(s.docs[i].book.title)
    ensures i < |EtlRun(s, extracted).docs| && EtlRun(s, extracted).docs[i] == s.docs[i]
  {
    forall k | 0 <= k < |extracted| ensures Capitalize(extracted[k].title) != s.docs[i].book.title {
      CapitalizeShape(extracted[k].title);
    }
    EtlTouchesOnlyNormalisedTitles(s, extracted, i);
  }

  /**
   * Whatever a run writes is a normalised record: every document is either as it was before
   * the run or holds the fields of one of the normalised records, hence a capitalised title
   * and a price without the artifact or surrounding whitespace.
   */
  lemma EtlWritesNormalisedRecords(s: State, extracted: seq<Book>, i: nat)
    requires i < |EtlRun(s, extracted).docs|
    ensures (i < |s.docs| && EtlRun(s, extracted).docs[i] == s.docs[i])
      || (EtlRun(s, extracted).docs[i].book in Normalised(extracted)
          && IsCapitalized(EtlRun(s, extracted).docs[i].book.title)
          && Artifact !in EtlRun(s, extracted).docs[i].book.price
          && IsStripped(EtlRun(s, extracted).docs[i].book.price))
  {
    if extracted != [] {
      var batch := Normalised(extracted);
      var r := LoadAll(s, batch);
      if i < |s.docs| {
        LoadKeepsOldDocs(s, batch, i);
      } else {
        LoadNewBooks(s, batch, i);
      }
      if r.docs[i].book in batch {
        var k :| 0 <= k < |batch| && batch[k] == r.docs[i].book;
        NormalisedShape(extracted, k);
      }
    }
  }
}
