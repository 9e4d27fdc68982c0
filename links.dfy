/** The two ways the scraper reads a product out of a storefront link: the
    product id, a match of the pattern \/l\/([^/?]+), and the slug used as a
    fallback name, `link.split('/l/')[1]?.split('?')[0]`. */
module Links {
  import opened Wrappers
  import opened Text

  /** The three characters "/l/" start at index `i` of `s`. */
  predicate MarkerAt(s: string, i: int) {
    0 <= i && i + 3 <= |s| && s[i] == '/' && s[i + 1] == 'l' && s[i + 2] == '/'
  }

  /** The character class [^/?] of the product id. */
  predicate IdChar(c: char) {
    c != '/' && c != '?'
  }

  /** A marker at `i` that the id pattern can match from: it is followed by at
      least one id character. */
  predicate IdStartsAt(s: string, i: int) {
    MarkerAt(s, i) && i + 3 < |s| && IdChar(s[i + 3])
  }

  // ---------------------------------------------------------------------------
  // The product id: link.match(/\/l\/([^/?]+)/)

  /** `s[i..j]` is a match of \/l\/[^/?]+ . */
  ghost predicate PatternMatch(s: string, i: int, j: int) {
    MarkerAt(s, i) && i + 4 <= j <= |s| && forall m :: i + 3 <= m < j ==> IdChar(s[m])
  }

  /** The match `String.prototype.match` reports: the leftmost start, and at
      that start the longest run the greedy `+` takes. */
  ghost predicate SelectedMatch(s: string, i: int, j: int) {
    PatternMatch(s, i, j) && (j == |s| || !IdChar(s[j]))
    && forall i', j' :: PatternMatch(s, i', j') ==> i <= i'
  }

  /** The first index at or after `from` where the id pattern can start. */
  function FirstIdStart(s: string, from: nat): (r: Option<nat>)
    decreases |s| - from
    ensures r.Some? ==> from <= r.value && IdStartsAt(s, r.value)
    ensures forall k :: from <= k && (r.None? || k < r.value) ==> !IdStartsAt(s, k)
  {
    if from + 4 > |s| then None
    else if IdStartsAt(s, from) then Some(from)
    else FirstIdStart(s, from + 1)
  }

  /** The end of the run of id characters that starts at `j`. */
  function IdRunEnd(s: string, j: nat): (k: nat)
    requires j <= |s|
    decreases |s| - j
    ensures j <= k <= |s|
    ensures forall m :: j <= m < k ==> IdChar(s[m])
    ensures k == |s| || !IdChar(s[k])
  {
    if j == |s| || !IdChar(s[j]) then j else IdRunEnd(s, j + 1)
  }

  /** `extractProductID(link)`: the captured group of the first match, or
      None (JavaScript's null) when the link has no match. */
  function ExtractProductId(link: string): (r: Option<string>)
    ensures r.None? <==> forall i :: !IdStartsAt(link, i)
    ensures r.Some? ==> r.value != [] && forall c :: c in r.value ==> IdChar(c)
  {
    match FirstIdStart(link, 0)
    case None => None
    case Some(i) =>
      var v := link[i + 3..IdRunEnd(link, i + 3)];
      assert forall c :: c in v ==> IdChar(c) by {
        forall c | c in v ensures IdChar(c) {
          var m :| 0 <= m < |v| && v[m] == c;
          assert link[i + 3 + m] == c;
        }
      }
      Some(v)
  }

  /** The id is the group of the selected regular-expression match. */
  lemma ExtractProductIdIsSelectedMatch(link: string, i: nat, j: nat)
    requires SelectedMatch(link, i, j)
    ensures ExtractProductId(link) == Some(link[i + 3..j])
  {
    var f := FirstIdStart(link, 0);
    assert IdStartsAt(link, i);
    assert f.Some?;
    var i0 := f.value;
    assert PatternMatch(link, i0, i0 + 4);
    assert i0 == i;
    assert IdRunEnd(link, i + 3) == j;
  }

  /** The id is None exactly when the pattern matches nowhere in the link, and
      otherwise comes from the selected match. */
  lemma ExtractProductIdNoneIffNoMatch(link: string)
    ensures ExtractProductId(link).None? <==> forall i, j :: !PatternMatch(link, i, j)
    ensures ExtractProductId(link).Some? ==>
              exists i, j :: SelectedMatch(link, i, j) && ExtractProductId(link) == Some(link[i + 3..j])
  {
    var f := FirstIdStart(link, 0);
    if f.Some? {
      var i := f.value;
      var j := IdRunEnd(link, i + 3);
      assert PatternMatch(link, i, j);
      forall i', j' | PatternMatch(link, i', j') ensures i <= i' {
        assert IdStartsAt(link, i');
      }
      assert SelectedMatch(link, i, j);
    } else {
      forall i, j ensures !PatternMatch(link, i, j) {
        assert PatternMatch(link, i, j) ==> IdStartsAt(link, i);
      }
    }
  }

  // ---------------------------------------------------------------------------
  // The slug: link.split('/l/')[1]?.split('?')[0]

  /** The first marker at or after `from`, where `split` resumes its search. */
  function FirstMarkerFrom(s: string, from: nat): (r: Option<nat>)
    decreases |s| - from
    ensures r.Some? ==> from <= r.value && MarkerAt(s, r.value)
    ensures forall k :: from <= k && (r.None? || k < r.value) ==> !MarkerAt(s, k)
  {
    if from + 3 > |s| then None
    else if MarkerAt(s, from) then Some(from)
    else FirstMarkerFrom(s, from + 1)
  }

  /** `v` is what `split('/l/')` puts after the marker at `p`, cut at its
      first '?': the text from `p + 3` up to the next marker, the first '?' or
      the end of the link, whichever comes first. */
  predicate PieceAt(link: string, p: nat, v: string) {
    && p + 3 + |v| <= |link| && link[p + 3..p + 3 + |v|] == v
    && (forall m :: 0 <= m < |v| ==> v[m] != '?')
    && (forall k :: p + 3 <= k < p + 3 + |v| ==> !MarkerAt(link, k))
    && (p + 3 + |v| == |link| || link[p + 3 + |v|] == '?' || MarkerAt(link, p + 3 + |v|))
  }

  /** `link.split('/l/')[1]?.split('?')[0]`: None when the split has no second
      piece (there is no marker in the link); otherwise the piece after the
      first marker. */
  function SecondPieceBeforeQuery(link: string): (r: Option<string>)
    ensures r.None? <==> FirstMarkerFrom(link, 0).None?
    ensures r.Some? ==> PieceAt(link, FirstMarkerFrom(link, 0).value, r.value)
  {
    match FirstMarkerFrom(link, 0)
    case None => None
    case Some(p) =>
      var end := FirstMarkerFrom(link, p + 3).GetOr(|link|);
      var piece := link[p + 3..end];
      var q := IndexOf(piece, '?');
      var v := piece[..q];
      assert forall m :: 0 <= m < q ==> v[m] == link[p + 3 + m];
      assert link[p + 3..p + 3 + q] == v;
      Some(v)
  }

  /** The slug fallback name: the second split piece when it is a non-empty
      string (the `||` operator treats "" like undefined). */
  function SlugFromLink(link: string): (r: Option<string>)
    ensures r.Some? ==> r.value != [] && FirstMarkerFrom(link, 0).Some?
                        && PieceAt(link, FirstMarkerFrom(link, 0).value, r.value)
    ensures r.None? ==> FirstMarkerFrom(link, 0).None?
                        || PieceAt(link, FirstMarkerFrom(link, 0).value, [])
  {
    match SecondPieceBeforeQuery(link)
    case None => None
    case Some(v) => if v == [] then None else Some(v)
  }

  /** When the first marker starts an id, the pattern's leftmost match is at
      that marker. */
  lemma FirstMarkerStartsId(link: string, p: nat)
    requires FirstMarkerFrom(link, 0) == Some(p) && IdStartsAt(link, p)
    ensures ExtractProductId(link) == Some(link[p + 3..IdRunEnd(link, p + 3)])
  {
    var f := FirstIdStart(link, 0);
    assert f.Some?;
    assert MarkerAt(link, f.value);
    assert f.value == p;
  }

  /** A prefix of `slug` free of '/' and followed in `slug` by '/' (if by
      anything) is all of `slug` exactly when `slug` has no '/'. */
  lemma PrefixEndsAtSlash(slug: string, id: string)
    requires |id| <= |slug| && slug[..|id|] == id
    requires forall m :: 0 <= m < |id| ==> id[m] != '/'
    requires |id| < |slug| ==> slug[|id|] == '/'
    ensures id == slug <==> forall m :: 0 <= m < |slug| ==> slug[m] != '/'
  {
    if id == slug {
      forall m | 0 <= m < |slug| ensures slug[m] != '/' {
        assert slug[m] == id[m];
      }
    }
  }

  /** Where the first marker in a link starts a product id, the id is the
      slug up to its first '/', and the two agree exactly when the slug has no
      '/'. */
  lemma IdIsSlugUpToSlash(link: string)
    requires FirstMarkerFrom(link, 0).Some? && IdStartsAt(link, FirstMarkerFrom(link, 0).value)
    ensures SlugFromLink(link).Some? && ExtractProductId(link).Some?
    ensures var id := ExtractProductId(link).value;
            var slug := SlugFromLink(link).value;
            |id| <= |slug| && slug[..|id|] == id
            && (|id| < |slug| ==> slug[|id|] == '/')
            && (id == slug <==> forall m :: 0 <= m < |slug| ==> slug[m] != '/')
  {
    var p := FirstMarkerFrom(link, 0).value;
    FirstMarkerStartsId(link, p);
    var e := IdRunEnd(link, p + 3);
    var v := SecondPieceBeforeQuery(link).value;
    IdRunWithinPiece(link, p, v, e);
    assert SlugFromLink(link) == Some(v);
    PrefixEndsAtSlash(v, link[p + 3..e]);
  }

  /** The piece after a marker that starts an id is not empty, and the run of
      id characters cannot extend past it: the piece ends at a '?', at a
      marker (which starts with '/') or at the end of the link, and the first
      character after the run, if any, is the piece's first '/'. */
  lemma IdRunWithinPiece(link: string, p: nat, v: string, e: nat)
    requires IdStartsAt(link, p) && PieceAt(link, p, v)
    requires p + 3 <= e <= |link| && e == IdRunEnd(link, p + 3)
    ensures v != [] && e - (p + 3) <= |v|
    ensures v[..e - (p + 3)] == link[p + 3..e]
    ensures forall m :: 0 <= m < e - (p + 3) ==> v[m] != '/'
    ensures e - (p + 3) < |v| ==> v[e - (p + 3)] == '/'
  {
    var id := link[p + 3..e];
    assert |id| <= |v|;
    assert forall m :: 0 <= m < |id| ==> v[m] == link[p + 3 + m] == id[m];
    assert |id| < |v| ==> v[|id|] == link[e];
  }

  // ---------------------------------------------------------------------------
  // Worked links

  /** A prefix without the letter 'l' holds no marker. */
  lemma NoMarkerBefore(a: string, b: string)
    requires 'l' !in a && (b == [] || b[0] != 'l')
    ensures forall k :: k < |a| ==> !MarkerAt(a + b, k)
  {
    forall k | k < |a| ensures !MarkerAt(a + b, k) {
      if 0 <= k && k + 3 <= |a + b| {
        if k + 1 < |a| { assert (a + b)[k + 1] == a[k + 1]; } else { assert (a + b)[k + 1] == b[0]; }
      }
    }
  }

  /** Neither does a suffix without the letter 'l'. */
  lemma NoMarkerAfter(a: string, b: string)
    requires 'l' !in b
    ensures forall k :: |a| <= k ==> !MarkerAt(a + b, k)
  {
    forall k | |a| <= k ensures !MarkerAt(a + b, k) {
      if k + 3 <= |a + b| { assert (a + b)[k + 1] == b[k + 1 - |a|]; }
    }
  }

  /** The id of `host/l/<id><tail>` when the host holds no marker and the
      tail does not continue the id. */
  lemma IdAfterHost(host: string, id: string, tail: string)
    requires 'l' !in host && id != [] && (forall c :: c in id ==> IdChar(c))
    requires tail == [] || !IdChar(tail[0])
    ensures ExtractProductId(host + "/l/" + id + tail) == Some(id)
  {
    var s := host + "/l/" + id + tail;
    assert s == host + ("/l/" + id + tail);
    NoMarkerBefore(host, "/l/" + id + tail);
    var i, j := |host|, |host| + 3 + |id|;
    assert s[i..i + 3] == "/l/";
    assert s[i + 3..j] == id;
    assert forall m :: i + 3 <= m < j ==> s[m] == id[m - i - 3];
    assert PatternMatch(s, i, j);
    assert j < |s| ==> s[j] == tail[0];
    ExtractProductIdIsSelectedMatch(s, i, j);
  }

  /** The slug of `host/l/<rest>` when neither the host nor the rest holds a
      marker and the rest has no query. */
  lemma SlugAfterHost(host: string, rest: string)
    requires 'l' !in host && 'l' !in rest && '?' !in rest && rest != []
    ensures SlugFromLink(host + "/l/" + rest) == Some(rest)
  {
    var s := host + "/l/" + rest;
    var i := |host|;
    assert s == host + ("/l/" + rest);
    NoMarkerBefore(host, "/l/" + rest);
    assert MarkerAt(s, i);
    assert FirstMarkerFrom(s, 0) == Some(i);
    assert s == (host + "/l/") + rest;
    NoMarkerAfter(host + "/l/", rest);
    assert FirstMarkerFrom(s, i + 3) == None;
    var piece := s[i + 3..FirstMarkerFrom(s, i + 3).GetOr(|s|)];
    assert piece == rest;
    assert IndexOf(rest, '?') == |rest|;
    assert rest[..|rest|] == rest;
    assert SecondPieceBeforeQuery(s) == Some(rest);
  }

  const StoreHost := "https://oscaudio.gumroad.com"

  /** A query string ends the id. */
  lemma IdStopsAtQuery()
    ensures ExtractProductId(StoreHost + "/l/abc123?x=1") == Some("abc123")
  {
    IdAfterHost(StoreHost, "abc123", "?x=1");
    assert StoreHost + "/l/abc123?x=1" == StoreHost + "/l/" + "abc123" + "?x=1";
  }

  /** A '/' ends the id but not the slug, so the two extractors disagree on
      the same link: `.../l/abc/def` has the id "abc" and the slug
      "abc/def". */
  lemma SlashEndsIdNotSlug(host: string, id: string, rest: string)
    requires 'l' !in host && id != [] && (forall c :: c in id ==> IdChar(c))
    requires 'l' !in id && 'l' !in rest && '?' !in rest
    ensures ExtractProductId(host + "/l/" + id + "/" + rest) == Some(id)
    ensures SlugFromLink(host + "/l/" + id + "/" + rest) == Some(id + "/" + rest)
  {
    var tail := "/" + rest;
    assert host + "/l/" + id + "/" + rest == host + "/l/" + id + tail;
    IdAfterHost(host, id, tail);
    assert host + "/l/" + id + "/" + rest == host + "/l/" + (id + "/" + rest);
    SlugAfterHost(host, id + "/" + rest);
  }

  /** A card without an anchor has the empty link, which yields neither an id
      nor a slug. */
  lemma EmptyLinkHasNoIdOrSlug()
    ensures ExtractProductId("") == None && SlugFromLink("") == None
  {
  }
}
