/**
 * Which anchors of an index page are article links (process.py,
 * `legislation_links`, and the two jurisdiction patterns of main.py).
 */
module LinkFilter {
  import opened Web
  import opened Strings
  import opened Seqs

  // The regular expression `^<lead>[a-zA-Z]*/` used with `re.match`: the
  // literal `lead`, then any number of ASCII letters, then a slash, at the
  // start of the href.
  datatype HrefPattern = HrefPattern(lead: string)

  // `^/uk[a-zA-Z]*/`: links to UK legislation.
  const UkHrefPattern := HrefPattern("/uk")

  // `^/ni[a-zA-Z]*/`: links to Northern Ireland legislation.
  const NisrHrefPattern := HrefPattern("/ni")

  /** The Welsh-language copy of the listing link, which is not an article. */
  const ExcludedFragment := "/cy/ukia?stage=Final&amp"

  /** Listing links end with this; articles do not. */
  const ExcludedSuffix := "Final"

  // `[a-zA-Z]*/` matched at the start of `s`.
  predicate LettersThenSlash(s: string)
    decreases |s|
  {
    s != [] && (s[0] == '/' || (IsLetter(s[0]) && LettersThenSlash(s[1..])))
  }

  /** `pattern.match(href)` succeeds. */
  predicate Matches(p: HrefPattern, href: string) {
    StartsWith(href, p.lead) && LettersThenSlash(href[|p.lead|..])
  }

  /** The match closes with the slash at index `k`: `href` starts with the
      pattern's literal, which is followed by letters up to index `k`. */
  predicate MatchesUpTo(p: HrefPattern, href: string, k: int) {
    StartsWith(href, p.lead) && |p.lead| <= k < |href| && href[k] == '/'
    && forall i :: |p.lead| <= i < k ==> IsLetter(href[i])
  }

  lemma {:induction false} LettersThenSlashIff(s: string)
    ensures LettersThenSlash(s) <==> exists k :: 0 <= k < |s| && s[k] == '/' && forall i :: 0 <= i < k ==> IsLetter(s[i])
    decreases |s|
  {
    if s != [] && s[0] != '/' {
      LettersThenSlashIff(s[1..]);
      if LettersThenSlash(s) {
        var k :| 0 <= k < |s[1..]| && s[1..][k] == '/' && forall i :: 0 <= i < k ==> IsLetter(s[1..][i]);
        assert s[k + 1] == '/' && forall i :: 0 <= i < k + 1 ==> IsLetter(s[i]);
      }
      if exists k :: 0 <= k < |s| && s[k] == '/' && forall i :: 0 <= i < k ==> IsLetter(s[i]) {
        var k :| 0 <= k < |s| && s[k] == '/' && forall i :: 0 <= i < k ==> IsLetter(s[i]);
        assert k > 0 && IsLetter(s[0]);
        assert s[1..][k - 1] == '/' && forall i :: 0 <= i < k - 1 ==> IsLetter(s[1..][i]);
      }
    } else if s != [] {
      assert s[0] == '/';
    }
  }

  /** The hand-written matcher agrees with the meaning of the pattern. */
  lemma MatchesIff(p: HrefPattern, href: string)
    ensures Matches(p, href) <==> exists k :: MatchesUpTo(p, href, k)
  {
    if StartsWith(href, p.lead) {
      var n := |p.lead|;
      var rest := href[n..];
      LettersThenSlashIff(rest);
      if LettersThenSlash(rest) {
        var k :| 0 <= k < |rest| && rest[k] == '/' && forall i :: 0 <= i < k ==> IsLetter(rest[i]);
        assert MatchesUpTo(p, href, n + k) by {
          forall i | n <= i < n + k ensures IsLetter(href[i]) {
            assert href[i] == rest[i - n];
          }
        }
      }
      if exists k :: MatchesUpTo(p, href, k) {
        var k :| MatchesUpTo(p, href, k);
        assert rest[k - n] == '/';
        assert forall i :: 0 <= i < k - n ==> IsLetter(rest[i]) by {
          forall i | 0 <= i < k - n ensures IsLetter(rest[i]) {
            assert rest[i] == href[n + i];
          }
        }
      }
    }
  }

  /**
   * `legislation_links(tag, href_pattern)`: the tag is an anchor with an
   * href that matches the jurisdiction pattern, does not contain the Welsh
   * listing fragment and does not end with "Final".
   */
  function LegislationLinks(tag: Tag, p: HrefPattern): (r: bool)
    ensures r <==>
      && tag.name == "a"
      && tag.href.Some?
      && (exists k :: MatchesUpTo(p, tag.href.value, k))
      && !Contains(tag.href.value, ExcludedFragment)
      && !EndsWith(tag.href.value, ExcludedSuffix)
  {
    if tag.name == "a" && tag.href.Some? then
      MatchesIff(p, tag.href.value);
      Matches(p, tag.href.value)
      && !Contains(tag.href.value, ExcludedFragment)
      && !EndsWith(tag.href.value, ExcludedSuffix)
    else
      false
  }

  /** `soup.find_all(lambda tag: legislation_links(tag, pattern))`. */
  function FindLegislationLinks(soup: seq<Tag>, p: HrefPattern): (links: seq<Tag>)
    ensures forall t :: t in links <==> t in soup && LegislationLinks(t, p)
  {
    Filter(t => LegislationLinks(t, p), soup)
  }

  /** No href matches both jurisdiction patterns. */
  lemma PatternsDisjoint(href: string)
    ensures !(Matches(UkHrefPattern, href) && Matches(NisrHrefPattern, href))
  {
    if StartsWith(href, UkHrefPattern.lead) {
      assert href[1] == 'u';
    }
  }

  /** The UK and Northern Ireland link families of a page share no anchor. */
  lemma LinkFamiliesDisjoint(soup: seq<Tag>)
    ensures forall t :: t in FindLegislationLinks(soup, UkHrefPattern) ==> t !in FindLegislationLinks(soup, NisrHrefPattern)
  {
    forall t | t in FindLegislationLinks(soup, UkHrefPattern)
      ensures t !in FindLegislationLinks(soup, NisrHrefPattern)
    {
      MatchesIff(UkHrefPattern, t.href.value);
      PatternsDisjoint(t.href.value);
    }
  }
}
