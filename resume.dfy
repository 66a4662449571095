/**
 * The resume panel: a row of tab links (`.resume-link`), three detail blocks
 * keyed `education`, `experience` and `certifications`, and a heading made of
 * a title and a number. A click highlights the clicked link alone and, for a
 * known key, shows that block's title and number.
 */
module Resume {
  import opened Flags

  /** The keys of the detail blocks. */
  const Keys: set<string> := {"education", "experience", "certifications"}

  const Titles: map<string, string> :=
    map["education" := "Education", "experience" := "Experience", "certifications" := "Certifications"]

  const Numbers: map<string, string> :=
    map["education" := "1", "experience" := "2", "certifications" := "3"]

  /** The title and the number shown above the detail blocks. */
  datatype Heading = Heading(title: string, number: string)

  /** The position of the first '#' in `s`, or `|s|` when there is none. */
  function HashIndex(s: string): (k: nat)
    ensures k <= |s|
    ensures forall m :: 0 <= m < k ==> s[m] != '#'
    ensures k < |s| ==> s[k] == '#'
  {
    if s == [] || s[0] == '#' then 0 else 1 + HashIndex(s[1..])
  }

  /** The key a link stands for: its `href` with the first '#' removed (a string pattern replaces once). */
  function TabType(href: string): (key: string)
    ensures '#' !in href ==> key == href
    ensures '#' in href ==> |key| == |href| - 1
  {
    var k := HashIndex(href);
    assert '#' in href <==> k < |href| by {
      assert '#' !in href ==> forall m :: 0 <= m < |href| ==> href[m] != '#';
    }
    if k < |href| then href[..k] + href[k + 1..] else href
  }

  /** An in-page anchor `#key` stands for `key`, and an href without '#' stands for itself. */
  lemma {:induction false} TabTypeOfAnchor(key: string)
    ensures TabType("#" + key) == key
    ensures '#' !in key ==> TabType(key) == key
  {
    assert HashIndex("#" + key) == 0;
    if '#' !in key {
      assert forall m :: 0 <= m < |key| ==> key[m] != '#';
    }
  }

  /** The removed character is the first '#', and everything else keeps its order. */
  lemma TabTypeRemovesFirstHash(href: string)
    requires '#' in href
    ensures |TabType(href)| == |href| - 1
    ensures exists k :: 0 <= k < |href| && href[k] == '#' && '#' !in href[..k]
                        && TabType(href) == href[..k] + href[k + 1..]
  {
    var k := HashIndex(href);
    assert k < |href|;
    assert '#' !in href[..k] by {
      forall c | c in href[..k] ensures c != '#' {
        var m :| 0 <= m < k && href[..k][m] == c;
      }
    }
  }

  /** The elements the resume handler looks up: which detail blocks exist, and whether the title and the number exist. */
  datatype PageElements = PageElements(details: set<string>, hasTitle: bool, hasNumber: bool)

  /**
   * The heading after a click on a link for `key`. It changes only when the
   * key names a detail block. When one of the detail blocks is missing from
   * the page the handler fails while fading the blocks out, before it reaches
   * the heading; when the title element is missing it fails on the title;
   * when only the number element is missing it fails after setting the title.
   */
  function HeadingAfterClick(h: Heading, key: string, page: PageElements): (after: Heading)
  {
    if !(Keys <= page.details) || key !in Keys || !page.hasTitle then h
    else Heading(Titles[key], if page.hasNumber then Numbers[key] else h.number)
  }

  /**
   * The heading changes only for a known key, and then only to that key's
   * title and, unless the number element is missing, its number. On a page
   * with all its elements a known key sets exactly that key's title and number.
   */
  lemma HeadingFollowsKey(h: Heading, key: string, page: PageElements)
    ensures key !in Keys ==> HeadingAfterClick(h, key, page) == h
    ensures var after := HeadingAfterClick(h, key, page);
            after != h ==> key in Keys && after.title == Titles[key]
                           && after.number in {Numbers[key], h.number}
    ensures Keys <= page.details && key in Keys && page.hasTitle && page.hasNumber ==>
              HeadingAfterClick(h, key, page) == Heading(Titles[key], Numbers[key])
    ensures Keys <= page.details && key in Keys && page.hasTitle && !page.hasNumber ==>
              HeadingAfterClick(h, key, page) == Heading(Titles[key], h.number)
  {
  }

  /** Different blocks have different headings, so the heading tells which block was chosen. */
  lemma HeadingIdentifiesBlock(k1: string, k2: string)
    requires k1 in Keys && k2 in Keys
    requires Heading(Titles[k1], Numbers[k1]) == Heading(Titles[k2], Numbers[k2])
    ensures k1 == k2
  {
  }

  /** The link flags after a click on link `k` of `n`: the clicked link is the one and only active link. */
  function Highlighted(n: nat, k: nat): (flags: seq<bool>)
    requires k < n
    ensures |flags| == n
    ensures ActiveSet(flags) == {k}
  {
    var flags := seq(n, j requires 0 <= j < n => j == k);
    assert flags[k];
    flags
  }

  /** The resume panel's links, the heading, and which of the elements it looks up the page has. */
  class ResumePanel {
    const links: array<bool>
    const hrefs: seq<string>
    const page: PageElements
    var title: string
    var number: string

    ghost predicate Valid()
      reads this
    {
      |hrefs| == links.Length
    }

    constructor (hrefs: seq<string>, page: PageElements, initial: Heading)
      ensures Valid() && fresh(links)
      ensures this.hrefs == hrefs && this.page == page
      ensures Heading(title, number) == initial
      ensures links[..] == seq(|hrefs|, j => false)
    {
      this.links := new bool[|hrefs|](j => false);
      this.hrefs := hrefs;
      this.page := page;
      this.title := initial.title;
      this.number := initial.number;
    }

    /**
     * The click handler of link `k`: clear every link's `active` flag, set
     * the clicked one's, then update the heading from the tables.
     */
    method ClickLink(k: nat)
      requires Valid() && k < links.Length
      modifies links, this`title, this`number
      ensures Valid()
      ensures links[..] == Highlighted(links.Length, k)
      ensures Heading(title, number)
                == HeadingAfterClick(old(Heading(title, number)), TabType(hrefs[k]), page)
    {
      var key := TabType(hrefs[k]);
      var j := 0;
      while j < links.Length
        invariant 0 <= j <= links.Length
        invariant forall m :: 0 <= m < j ==> !links[m]
        invariant title == old(title) && number == old(number)
      {
        links[j] := false;
        j := j + 1;
      }
      links[k] := true;
      assert links[..] == Highlighted(links.Length, k);
      if !(Keys <= page.details) {
        // a missing detail block makes the fade-out step fail
        return;
      }
      if key in Keys {
        if !page.hasTitle {
          // setting the text of the missing title fails
          return;
        }
        title := Titles[key];
        if !page.hasNumber {
          // setting the text of the missing number fails
          return;
        }
        number := Numbers[key];
      }
    }
  }
}
