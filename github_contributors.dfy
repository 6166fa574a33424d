/**
 * The contributor-link normaliser of docs/js/github-contributors.js: every
 * anchor inside a `.md-source-file__fact` element whose `href` starts with
 * `mailto:` is turned into a link to the GitHub profile named by the part of
 * the address before its `@`.
 *
 * The page is an array of link records; whether a link sits inside a
 * `.md-source-file__fact` element is the boolean `inFactContainer`. An
 * attribute the element does not carry is written as the empty string.
 */
module GithubContributors {
  import opened JsStrings

  const MailtoScheme := "mailto:"
  const ProfileBase := "https://github.com/"
  /** `target` of a rewritten link: open in a new browsing context. */
  const NewContext := "_blank"
  /** `rel` of a rewritten link: no `window.opener`, no referrer. */
  const SafeRel := "noopener noreferrer"

  datatype Link = Link(
    inFactContainer: bool,
    href: string,
    text: string,
    target: string,
    rel: string)

  /** The selector `.md-source-file__fact a[href^="mailto:"]`. */
  predicate IsContributorLink(l: Link) {
    l.inFactContainer && StartsWith(l.href, MailtoScheme)
  }

  /**
   * `href.replace('mailto:', '').split('@')[0]`. Nothing is rejected: an
   * identity without `@` is its own username.
   */
  function Username(href: string): (u: string)
    ensures '@' !in u
    ensures StartsWith(href, MailtoScheme) ==>
      u == SplitHead(href[|MailtoScheme|..], '@')
  {
    var identity := ReplaceFirst(href, MailtoScheme, "");
    assert StartsWith(href, MailtoScheme) ==>
      identity == [] + href[|MailtoScheme|..] == href[|MailtoScheme|..];
    SplitHead(identity, '@')
  }

  /** The visible text after the pass: cut at its first `@`, if it has one. */
  function DisplayText(text: string): (t: string)
    ensures '@' !in t
    ensures '@' !in text ==> t == text
    ensures '@' in text ==> StartsWith(text, t) && text[|t|] == '@'
  {
    if '@' in text then SplitHead(text, '@') else text
  }

  /** What one iteration of the `forEach` does to a selected link. */
  function Rewritten(l: Link): Link {
    l.(href := ProfileBase + Username(l.href),
       target := NewContext,
       rel := SafeRel,
       text := DisplayText(l.text))
  }

  /** The effect of one pass on one link: selected links are rewritten, others kept. */
  function NormalizeLink(l: Link): Link {
    if IsContributorLink(l) then Rewritten(l) else l
  }

  /** The effect of one pass on the whole page, link by link. */
  function NormalizedPage(page: seq<Link>): (r: seq<Link>)
    ensures |r| == |page|
    ensures forall i :: 0 <= i < |page| ==> r[i] == NormalizeLink(page[i])
  {
    if page == [] then [] else [NormalizeLink(page[0])] + NormalizedPage(page[1..])
  }

  /** `n` passes in a row, as the MutationObserver runs them. */
  function Passes(page: seq<Link>, n: nat): seq<Link> {
    if n == 0 then page else NormalizedPage(Passes(page, n - 1))
  }

  /** A link that is not selected keeps every attribute and its text. */
  lemma UnselectedUnchanged(l: Link)
    requires !IsContributorLink(l)
    ensures NormalizeLink(l) == l
  {
  }

  /**
   * A selected link with `href == "mailto:" + e` ends with the profile URL of
   * the part of `e` before its first `@` (all of `e` when there is none),
   * opens in a new context with `noopener noreferrer`, and shows its text cut
   * at the first `@`; it is still in its container.
   */
  lemma RewriteOfMailto(l: Link, e: string)
    requires l.inFactContainer && l.href == MailtoScheme + e
    ensures NormalizeLink(l).href == ProfileBase + SplitHead(e, '@')
    ensures '@' !in e ==> NormalizeLink(l).href == ProfileBase + e
    ensures NormalizeLink(l).target == NewContext && NormalizeLink(l).rel == SafeRel
    ensures NormalizeLink(l).text == DisplayText(l.text)
    ensures NormalizeLink(l).inFactContainer
  {
  }

  /** A rewritten `href` no longer starts with `mailto:`. */
  lemma RewrittenNotSelected(l: Link)
    ensures !IsContributorLink(Rewritten(l))
  {
    var h := Rewritten(l).href;
    assert h[0] == 'h';
  }

  /** A second pass over a link changes nothing. */
  lemma NormalizeLinkIdempotent(l: Link)
    ensures NormalizeLink(NormalizeLink(l)) == NormalizeLink(l)
  {
    if IsContributorLink(l) {
      RewrittenNotSelected(l);
    }
  }

  /** Running the pass on an already normalised page is a no-op. */
  lemma NormalizedPageIdempotent(page: seq<Link>)
    ensures NormalizedPage(NormalizedPage(page)) == NormalizedPage(page)
  {
    var once := NormalizedPage(page);
    forall i | 0 <= i < |page|
      ensures NormalizedPage(once)[i] == once[i]
    {
      NormalizeLinkIdempotent(page[i]);
    }
  }

  /** However many times the observer re-runs the pass, the page is as after one pass. */
  lemma {:induction false} RepeatedPasses(page: seq<Link>, n: nat)
    requires n >= 1
    ensures Passes(page, n) == NormalizedPage(page)
  {
    if n > 1 {
      RepeatedPasses(page, n - 1);
      NormalizedPageIdempotent(page);
    }
  }

  /** Links are rewritten independently: the pass distributes over concatenation. */
  lemma NormalizedPageConcat(a: seq<Link>, b: seq<Link>)
    ensures NormalizedPage(a + b) == NormalizedPage(a) + NormalizedPage(b)
  {
    var lhs, rhs := NormalizedPage(a + b), NormalizedPage(a) + NormalizedPage(b);
    forall i | 0 <= i < |a + b|
      ensures lhs[i] == rhs[i]
    {
      if i >= |a| {
        assert (a + b)[i] == b[i - |a|];
      }
    }
  }

  /**
   * Inserting links into a normalised page and re-running the pass gives the
   * page that one pass over all of it would give: new mailto links are
   * rewritten and old ones are left as they were.
   */
  lemma RescanAfterInsertion(before: seq<Link>, inserted: seq<Link>, after: seq<Link>)
    ensures NormalizedPage(NormalizedPage(before) + inserted + NormalizedPage(after))
         == NormalizedPage(before + inserted + after)
  {
    NormalizedPageConcat(NormalizedPage(before) + inserted, NormalizedPage(after));
    NormalizedPageConcat(NormalizedPage(before), inserted);
    NormalizedPageIdempotent(before);
    NormalizedPageIdempotent(after);
    NormalizedPageConcat(before + inserted, after);
    NormalizedPageConcat(before, inserted);
  }

  /**
   * `document.querySelectorAll(...)`: the indices of the selected links, in
   * document order, fixed before any of them is rewritten.
   */
  method SelectContributorLinks(page: array<Link>) returns (selected: seq<nat>)
    ensures forall k :: 0 <= k < |selected| ==>
      selected[k] < page.Length && IsContributorLink(page[selected[k]])
    ensures forall k, m :: 0 <= k < m < |selected| ==> selected[k] < selected[m]
    ensures forall j :: 0 <= j < page.Length && IsContributorLink(page[j]) ==> j in selected
  {
    selected := [];
    var j := 0;
    while j < page.Length
      invariant 0 <= j <= page.Length
      invariant forall k :: 0 <= k < |selected| ==>
        selected[k] < j && IsContributorLink(page[selected[k]])
      invariant forall k, m :: 0 <= k < m < |selected| ==> selected[k] < selected[m]
      invariant forall i :: 0 <= i < j && IsContributorLink(page[i]) ==> i in selected
    {
      if IsContributorLink(page[j]) {
        selected := selected + [j];
      }
      j := j + 1;
    }
  }

  /** `fixContributorLinks()`: one pass, rewriting the selected links in place. */
  method FixContributorLinks(page: array<Link>)
    modifies page
    ensures page[..] == NormalizedPage(old(page[..]))
  {
    var selected := SelectContributorLinks(page);
    var k := 0;
    while k < |selected|
      invariant 0 <= k <= |selected|
      invariant forall j :: 0 <= j < page.Length ==>
        page[j] == if j in selected[..k] then Rewritten(old(page[j])) else old(page[j])
    {
      var j := selected[k];
      assert j !in selected[..k];
      page[j] := Rewritten(page[j]);
      assert selected[..k + 1] == selected[..k] + [j];
      k := k + 1;
    }
    assert selected[..k] == selected;
    forall j | 0 <= j < page.Length
      ensures page[j] == NormalizeLink(old(page[j]))
    {
      assert j in selected <==> IsContributorLink(old(page[j]));
    }
  }
}
