/** The matching loop of `check_for_category` in utils/requests.py (lines
    101-110): the category list the web site returned is searched for the
    page's category label. */
module CategoryLookup {
  import opened Text

  /** One entry of the web site's category list. */
  datatype CategoryEntry = CategoryEntry(id: int, name: string)

  /** The id of "Uncategorized", which always exists on the web site. */
  const Uncategorized: int := 1

  /** Lines 104-107: the stripped names are equal, or the label is exactly
      "tun & lassen" and the stored name is its HTML-escaped form. */
  predicate NameMatches(category: string, name: string)
  {
    (category == "tun & lassen" && Strip(name) == "tun &amp; lassen") || Strip(name) == Strip(category)
  }

  /** The id of the first entry whose name matches, or 1 when none does; list
      order decides between entries with the same name. */
  method CheckForCategory(cats: seq<CategoryEntry>, category: string) returns (id: int)
    ensures (forall k :: 0 <= k < |cats| ==> !NameMatches(category, cats[k].name)) ==> id == Uncategorized
    ensures (exists k :: 0 <= k < |cats| && NameMatches(category, cats[k].name)) ==>
              exists k :: && 0 <= k < |cats| && NameMatches(category, cats[k].name) && id == cats[k].id
                          && forall j :: 0 <= j < k ==> !NameMatches(category, cats[j].name)
  {
    var i := 0;
    while i < |cats|
      invariant 0 <= i <= |cats|
      invariant NoneBefore(cats, category, i)
    {
      if NameMatches(category, cats[i].name) {
        FirstMatchAt(cats, category, i);
        return cats[i].id;
      }
      NoneBeforeNext(cats, category, i);
      i := i + 1;
    }
    NoneAtAll(cats, category);
    return Uncategorized;
  }

  /** No entry before index `i` matches. */
  ghost predicate NoneBefore(cats: seq<CategoryEntry>, category: string, i: nat)
  {
    forall j :: 0 <= j < i && j < |cats| ==> !NameMatches(category, cats[j].name)
  }

  /** A further non-matching entry extends the non-matching prefix. */
  lemma NoneBeforeNext(cats: seq<CategoryEntry>, category: string, i: nat)
    requires i < |cats| && !NameMatches(category, cats[i].name) && NoneBefore(cats, category, i)
    ensures NoneBefore(cats, category, i + 1)
  {
  }

  /** A non-matching prefix covering the whole list means no entry matches. */
  lemma NoneAtAll(cats: seq<CategoryEntry>, category: string)
    requires NoneBefore(cats, category, |cats|)
    ensures forall k :: 0 <= k < |cats| ==> !NameMatches(category, cats[k].name)
    ensures !exists k :: 0 <= k < |cats| && NameMatches(category, cats[k].name)
  {
  }

  /** An entry that matches after only non-matching ones is the first match. */
  lemma FirstMatchAt(cats: seq<CategoryEntry>, category: string, i: nat)
    requires i < |cats| && NameMatches(category, cats[i].name) && NoneBefore(cats, category, i)
    ensures !forall k :: 0 <= k < |cats| ==> !NameMatches(category, cats[k].name)
    ensures exists k :: && 0 <= k < |cats| && NameMatches(category, cats[k].name) && cats[i].id == cats[k].id
                        && forall j :: 0 <= j < k ==> !NameMatches(category, cats[j].name)
  {
  }

  /** The escaped stored name matches the plain label, but not the other way
      round: a label that is itself escaped does not match a plain name. */
  lemma EscapedNameMatch()
    ensures NameMatches("tun & lassen", "tun &amp; lassen ")
    ensures !NameMatches("tun &amp; lassen", "tun & lassen")
  {
    var escaped, plain := "tun &amp; lassen", "tun & lassen";
    assert !IsSpace(escaped[0]) && !IsSpace(escaped[|escaped| - 1]);
    assert !IsSpace(plain[0]) && !IsSpace(plain[|plain| - 1]);
    assert LeadingSpaces(escaped + " ") == 0 && TrailingStart(escaped + " ") == |escaped|;
    assert (escaped + " ")[0..|escaped|] == escaped;
    assert LeadingSpaces(escaped) == 0 && TrailingStart(escaped) == |escaped|;
    assert escaped[0..|escaped|] == escaped;
    assert LeadingSpaces(plain) == 0 && TrailingStart(plain) == |plain|;
    assert plain[0..|plain|] == plain;
    assert escaped[5] != plain[5];
  }
}
