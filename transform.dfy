/** etl/transform.py: the normaliser that edits each scraped record in place. */
module Transform {
  import opened Schema
  import opened Text

  /** `price.replace("Â", "").strip()` */
  function CleanPrice(p: string): string
  {
    Strip(RemoveChar(p, Artifact))
  }

  /** A cleaned price holds no stray artifact and no surrounding whitespace; a clean price is kept. */
  lemma CleanPriceShape(p: string)
    ensures Artifact !in CleanPrice(p)
    ensures IsStripped(CleanPrice(p))
    ensures Artifact !in p && IsStripped(p) ==> CleanPrice(p) == p
  {
    RemoveCharSpec(p, Artifact);
    StripKeepsChars(RemoveChar(p, Artifact), Artifact);
    StripSpec(RemoveChar(p, Artifact));
    if Artifact !in p && IsStripped(p) {
      StripFixpoint(p);
    }
  }

  /** The catalogue's mis-decoded price loses only the stray artifact and the surrounding blanks. */
  lemma CleanPriceExample()
    ensures CleanPrice(" \U{00C2}\U{00A3}51.77 ") == "\U{00A3}51.77"
  {
    ExampleRemove();
    ExampleStrip();
  }

  lemma ExampleRemove()
    ensures RemoveChar(" \U{00C2}\U{00A3}51.77 ", Artifact) == " \U{00A3}51.77 "
  {
    var head, tail := " \U{00C2}", "\U{00A3}51.77 ";
    ExampleRemoveHead();
    ExampleRemoveTail();
    RemoveCharAppend(head, tail, Artifact);
    assert head + tail == " \U{00C2}\U{00A3}51.77 ";
  }

  lemma ExampleRemoveHead()
    ensures RemoveChar(" \U{00C2}", Artifact) == " "
  {
    RemoveCharSingle(Artifact, Artifact);
    assert " \U{00C2}"[1..] == [Artifact];
  }

  lemma ExampleRemoveTail()
    ensures RemoveChar("\U{00A3}51.77 ", Artifact) == "\U{00A3}51.77 "
  {
    var tail := "\U{00A3}51.77 ";
    assert forall i :: 0 <= i < |tail| ==> tail[i] != Artifact;
    RemoveCharSpec(tail, Artifact);
  }

  lemma ExampleStrip()
    ensures Strip(" \U{00A3}51.77 ") == "\U{00A3}51.77"
  {
    var q, tail, amount := " \U{00A3}51.77 ", "\U{00A3}51.77 ", "\U{00A3}51.77";
    assert q[1..] == tail;
    assert LeadingSpaces(q) == 1 by {
      assert !IsSpace(tail[0]);
    }
    assert tail[..|tail| - 1] == amount;
    assert TrailingSpaces(tail) == 1 by {
      assert !IsSpace(amount[|amount| - 1]);
    }
  }

  /** One iteration of the loop: the price is cleaned and the title capitalised. */
  function Normalise(b: Book): Book
  {
    b.(price := CleanPrice(b.price), title := Capitalize(b.title))
  }

  /** The records after `transform_data`: the same number, in the same order, each normalised. */
  function Normalised(s: seq<Book>): (r: seq<Book>)
    ensures |r| == |s|
  {
    seq(|s|, i requires 0 <= i < |s| => Normalise(s[i]))
  }

  /** Every property the pipeline relies on, record by record. */
  lemma NormalisedShape(s: seq<Book>, i: nat)
    requires i < |s|
    ensures |Normalised(s)| == |s|
    ensures Normalised(s)[i].availability == s[i].availability
    ensures Artifact !in Normalised(s)[i].price && IsStripped(Normalised(s)[i].price)
    ensures Normalised(s)[i].title == Capitalize(s[i].title)
    ensures IsCapitalized(Normalised(s)[i].title)
  {
    CleanPriceShape(s[i].price);
    CapitalizeShape(s[i].title);
  }

  /** Normalising a normalised record changes nothing. */
  lemma NormaliseIdempotent(b: Book)
    ensures Normalise(Normalise(b)) == Normalise(b)
  {
    CleanPriceShape(b.price);
    CleanPriceShape(CleanPrice(b.price));
    CapitalizeIdempotent(b.title);
  }

  /** Running the normaliser over its own output changes nothing. */
  lemma NormalisedIdempotent(s: seq<Book>)
    ensures Normalised(Normalised(s)) == Normalised(s)
  {
    forall i | 0 <= i < |s| ensures Normalised(Normalised(s))[i] == Normalised(s)[i] {
      NormaliseIdempotent(s[i]);
    }
  }

  /**
   * `transform_data(data)`: overwrite the price and the title of every record of the list,
   * in place, and hand back the same list.
   */
  method TransformData(data: array<Book>) returns (r: array<Book>)
    modifies data
    ensures r == data
    ensures data[..] == Normalised(old(data[..]))
  {
    ghost var orig := data[..];
    for i := 0 to data.Length
      invariant forall k :: 0 <= k < i ==> data[k] == Normalise(orig[k])
      invariant forall k :: i <= k < data.Length ==> data[k] == orig[k]
    {
      var item := data[i];
      item := item.(price := CleanPrice(item.price));
      item := item.(title := Capitalize(item.title));
      data[i] := item;
    }
    r := data;
  }
}
