/** Artist records: immutable, identified by their id alone (src/Artist.java). */
module Artists {

  /** An artist: a node of the mention graph. The destructors `id`, `name` and
      `category` are the record's getters. */
  datatype Artist = Artist(id: int, name: string, category: string)
  {
    /** Java `equals`: true exactly for another artist with the same id,
        whatever its name and category; false for anything that is not an artist. */
    predicate Equals(o: Value): (r: bool)
      ensures r <==> o.AnArtist? && o.artist.(name := name, category := category) == this
    {
      o.AnArtist? && o.artist.id == id
    }

    /** Java `hashCode`: the hash of the id alone (a boxed int hashes to its value). */
    function HashCode(): int {
      id
    }

    /** Java `toString`: the name, a space, then the category in parentheses. */
    function ToString(): (r: string)
      ensures |r| == |name| + |category| + 3
      ensures r[..|name|] == name
      ensures r[|name|..|name| + 2] == " ("
      ensures r[|name| + 2..|r| - 1] == category
      ensures r[|r| - 1] == ')'
    {
      var r := name + " (" + category + ")";
      assert r[..|name|] == name;
      assert r[|name|..|name| + 2] == " (";
      assert r[|name| + 2..|r| - 1] == category;
      r
    }
  }

  /** What a Java `Object` passed to `equals` can be: an artist, or anything
      else (null or an object of another class). */
  datatype Value = AnArtist(artist: Artist) | NotAnArtist

  /** `Equals` is an equivalence on artists. */
  lemma EqualsIsEquivalence(a: Artist, b: Artist, c: Artist)
    ensures a.Equals(AnArtist(a))
    ensures a.Equals(AnArtist(b)) ==> b.Equals(AnArtist(a))
    ensures a.Equals(AnArtist(b)) && b.Equals(AnArtist(c)) ==> a.Equals(AnArtist(c))
  {
  }

  /** Equal artists have equal hash codes. */
  lemma EqualsAgreesWithHashCode(a: Artist, b: Artist)
    requires a.Equals(AnArtist(b))
    ensures a.HashCode() == b.HashCode()
  {
  }

  /** Two artists with the same id are equal whatever they are called. */
  lemma EqualsIgnoresDescription(a: Artist, name: string, category: string)
    ensures a.Equals(AnArtist(Artist(a.id, name, category)))
    ensures !a.Equals(NotAnArtist)
  {
  }
}
