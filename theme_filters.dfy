/** The theme's pure filter callbacks from functions.php: the print
    call-to-action appended to photo posts, the archive-title cleaner, the
    has-thumbnail heuristic and the featured-image linkifier. Host lookups
    (`is_single()`, `has_category('Photos')`, `get_post`, the attachment source
    and caption) arrive as parameters; translation and escaping are identity. */
module ThemeFilters {
  import opened PhpStrings

  // ---------------------------------------------------------------------------
  // The "Get a print!" call to action (the_content filter)

  const CallToActionOpen: string := "<p class=\"call-to-action photo-prints\">"
  /** The translated pitch, written in two parts so that its opening words can
      be named; the value is the source's single string. */
  const PitchOpening: string := "Interested in"
  const PitchRest: string :=
    " prints of my photos? <a href=\"/contact\">Let me know</a>, and we can work something out."
  const PrintPitch: string := PitchOpening + PitchRest
  /** The closing tag and PHP_EOL, taken to be "\n". */
  const CallToActionClose: string := "</p>" + "\n"
  /** The fragment appended to the content. */
  const CallToAction: string := CallToActionOpen + PrintPitch + CallToActionClose

  /** Case-insensitive containment, as `stripos(...) !== false` would test it. */
  predicate ContainsCI(h: string, w: string) {
    Contains(Lower(h), Lower(w))
  }

  /** The keyword is the first thing in `h`, ignoring case. */
  predicate LeadsWithCI(h: string, w: string) {
    OccursAt(Lower(h), Lower(w), 0)
  }

  /** The `$already_there` test as written: each `stripos` result is used as a
      boolean, so a keyword whose first occurrence is at offset 0 reads as absent. */
  predicate AlreadyThere(content: string)
    ensures AlreadyThere(content) ==>
      ContainsCI(content, "print") && (ContainsCI(content, "buy") || ContainsCI(content, "interested in"))
    ensures AlreadyThere(content) ==> !LeadsWithCI(content, "print")
  {
    Truthy(StrIPos(content, "print"))
    && (Truthy(StrIPos(content, "buy")) || Truthy(StrIPos(content, "interested in")))
  }

  /** `pj_hey_get_a_print_already`: on a single post in the Photos category,
      append the call to action unless `$already_there` holds, that is unless
      "print" and "buy" or "interested in" each first occur, ignoring case, past
      offset 0 (a keyword that opens the content reads as absent). */
  function PrintCallToAction(content: string, single: bool, inPhotos: bool): (r: string)
    ensures !(single && inPhotos) ==> r == content
    ensures r == content || r == content + CallToAction
    ensures r != content <==> single && inPhotos && !AlreadyThere(content)
  {
    if single && inPhotos then
      var alreadyThere := AlreadyThere(content);
      if !alreadyThere then content + CallToAction else content
    else content
  }

  /** A keyword counts for `$already_there` exactly when it occurs somewhere
      but its first occurrence is not at the very start. */
  lemma KeywordTruthy(content: string, w: string)
    ensures Truthy(StrIPos(content, w)) <==> ContainsCI(content, w) && !LeadsWithCI(content, w)
  {
    TruthyStrPos(Lower(content), Lower(w));
  }

  /** What `$already_there` means, stated without `stripos`: "print" occurs, and
      so does "buy" or "interested in", each first found past offset 0. */
  lemma AlreadyThereMeaning(content: string)
    ensures AlreadyThere(content) <==>
      && (ContainsCI(content, "print") && !LeadsWithCI(content, "print"))
      && ((ContainsCI(content, "buy") && !LeadsWithCI(content, "buy"))
          || (ContainsCI(content, "interested in") && !LeadsWithCI(content, "interested in")))
  {
    KeywordTruthy(content, "print");
    KeywordTruthy(content, "buy");
    KeywordTruthy(content, "interested in");
  }

  lemma LowerKeywords()
    ensures Lower("print") == "print"
    ensures Lower("buy") == "buy"
    ensures Lower("interested in") == "interested in"
  {
  }

  lemma LowerOccurs(s: string, w: string, k: nat)
    requires OccursAt(s, w, k)
    ensures OccursAt(Lower(s), Lower(w), k)
  {
    assert Lower(s)[k..k + |w|] == Lower(w);
  }

  lemma OccursShifted(a: string, b: string, n: string, q: nat)
    requires OccursAt(b, n, q)
    ensures OccursAt(a + b, n, |a| + q)
  {
    assert (a + b)[|a| + q..|a| + q + |n|] == b[q..q + |n|];
  }

  /** Appending text that starts with a character foreign to the needle cannot
      create an occurrence at offset 0. */
  lemma NoLeadAfterAppend(a: string, b: string, n: string)
    requires !OccursAt(a, n, 0)
    requires |b| > 0 && b[0] !in n
    ensures !OccursAt(a + b, n, 0)
  {
    if |a| < |n| {
      assert (a + b)[|a|] != n[|a|];
    }
  }

  lemma OccursExtended(a: string, b: string, n: string, p: nat)
    requires OccursAt(a, n, p)
    ensures OccursAt(a + b, n, p)
  {
    assert (a + b)[p..p + |n|] == a[p..p + |n|];
  }

  lemma CallToActionMentionsPrint()
    ensures OccursAt(Lower(CallToAction), "print", 31)
  {
    assert OccursAt(CallToActionOpen, "print", 31);
    OccursExtended(CallToActionOpen, PrintPitch, "print", 31);
    OccursExtended(CallToActionOpen + PrintPitch, CallToActionClose, "print", 31);
    LowerOccurs(CallToAction, "print", 31);
    LowerKeywords();
  }

  /** A piece at the front of the middle part of `a + (n + b) + c` sits right after `a`. */
  lemma OccursAtMiddle(a: string, n: string, b: string, c: string)
    ensures OccursAt(a + (n + b) + c, n, |a|)
  {
    assert (a + (n + b) + c)[|a|..|a| + |n|] == n;
  }

  lemma LowerPitchOpening()
    ensures Lower(PitchOpening) == "interested in"
  {
    assert PitchOpening == "I" + "nterested in";
    LowerAppend("I", "nterested in");
    assert Lower("I") == "i";
  }

  lemma CallToActionMentionsInterest()
    ensures OccursAt(Lower(CallToAction), "interested in", 39)
  {
    OccursAtMiddle(CallToActionOpen, PitchOpening, PitchRest, CallToActionClose);
    assert |CallToActionOpen| == 39;
    LowerOccurs(CallToAction, PitchOpening, 39);
    LowerPitchOpening();
  }

  /** The fragment itself mentions "print" and "interested in", past its first
      character, which is '<'. */
  lemma CallToActionKeywords()
    ensures OccursAt(Lower(CallToAction), "print", 31)
    ensures OccursAt(Lower(CallToAction), "interested in", 39)
    ensures Lower(CallToAction)[0] == '<'
  {
    CallToActionMentionsPrint();
    CallToActionMentionsInterest();
    assert CallToAction[0] == CallToActionOpen[0] == '<';
  }

  /** Appending any fragment that mentions "print" and "interested in" past its
      first character, a '<', makes `$already_there` hold, unless the content
      led with "print" or "interested in". */
  lemma AlreadyThereAfterFragment(content: string, fragment: string)
    requires !LeadsWithCI(content, "print") && !LeadsWithCI(content, "interested in")
    requires OccursAt(Lower(fragment), "print", 31)
    requires OccursAt(Lower(fragment), "interested in", 39)
    requires |fragment| > 0 && Lower(fragment)[0] == '<'
    ensures AlreadyThere(content + fragment)
  {
    var c := content + fragment;
    LowerKeywords();
    LowerAppend(content, fragment);
    OccursShifted(Lower(content), Lower(fragment), "print", 31);
    OccursShifted(Lower(content), Lower(fragment), "interested in", 39);
    NoLeadAfterAppend(Lower(content), Lower(fragment), "print");
    NoLeadAfterAppend(Lower(content), Lower(fragment), "interested in");
    KeywordTruthy(c, "print");
    KeywordTruthy(c, "interested in");
  }

  /** After the fragment is appended, `$already_there` holds, unless the
      original content led with "print" or "interested in". */
  lemma AlreadyThereAfterAppend(content: string)
    requires !LeadsWithCI(content, "print") && !LeadsWithCI(content, "interested in")
    ensures AlreadyThere(content + CallToAction)
  {
    CallToActionKeywords();
    AlreadyThereAfterFragment(content, CallToAction);
  }

  /** Filtering the content a second time adds nothing more, provided the
      original content did not lead with "print" or "interested in". */
  lemma PrintCallToActionStable(content: string, single: bool, inPhotos: bool)
    requires !LeadsWithCI(content, "print") && !LeadsWithCI(content, "interested in")
    ensures
      var once := PrintCallToAction(content, single, inPhotos);
      PrintCallToAction(once, single, inPhotos) == once
  {
    if single && inPhotos && !AlreadyThere(content) {
      AlreadyThereAfterAppend(content);
    }
  }

  /** As written, content that leads with "print" always gets the fragment,
      however clearly it offers prints for sale, and gets it again on every
      further pass of the filter: the filtered content still leads with
      "print", so the lemma applies to it again. */
  lemma PrintLeadAlwaysAppends(content: string)
    requires LeadsWithCI(content, "print")
    ensures PrintCallToAction(content, true, true) == content + CallToAction
    ensures PrintCallToAction(content + CallToAction, true, true) == content + CallToAction + CallToAction
    ensures LeadsWithCI(content + CallToAction, "print")
  {
    KeywordTruthy(content, "print");
    LowerAppend(content, CallToAction);
    assert Lower(content + CallToAction)[0..5] == Lower(content)[0..5];
    KeywordTruthy(content + CallToAction, "print");
  }

  /** A concrete post that offers prints for sale and still gets the fragment. */
  lemma PrintsForSaleExample()
    ensures
      var content := "Prints for sale: buy one";
      && ContainsCI(content, "print") && ContainsCI(content, "buy")
      && PrintCallToAction(content, true, true) == content + CallToAction
  {
    var content := "Prints for sale: buy one";
    LowerKeywords();
    assert content[0..5] == "Print";
    assert Lower("Print") == "print";
    LowerOccurs(content, "Print", 0);
    assert content[17..20] == "buy";
    LowerOccurs(content, "buy", 17);
    PrintLeadAlwaysAppends(content);
  }

  /** The test the doc comment describes: "print" together with "buy" or
      "interested in", wherever they occur. */
  predicate AlreadyThereIntended(content: string) {
    ContainsCI(content, "print") && (ContainsCI(content, "buy") || ContainsCI(content, "interested in"))
  }

  /** The call-to-action filter with the keyword test as intended. */
  function PrintCallToActionIntended(content: string, single: bool, inPhotos: bool): (r: string)
    ensures r == content || r == content + CallToAction
    ensures r != content <==> single && inPhotos && !AlreadyThereIntended(content)
  {
    if single && inPhotos && !AlreadyThereIntended(content) then content + CallToAction else content
  }

  /** The intended filter is idempotent on every content. */
  lemma PrintCallToActionIntendedIdempotent(content: string, single: bool, inPhotos: bool)
    ensures
      var once := PrintCallToActionIntended(content, single, inPhotos);
      PrintCallToActionIntended(once, single, inPhotos) == once
  {
    if single && inPhotos && !AlreadyThereIntended(content) {
      LowerKeywords();
      LowerAppend(content, CallToAction);
      CallToActionKeywords();
      OccursShifted(Lower(content), Lower(CallToAction), "print", 31);
      OccursShifted(Lower(content), Lower(CallToAction), "interested in", 39);
    }
  }

  /** The written and the intended filters agree on content where no keyword
      comes first. */
  lemma PrintCallToActionAgreesAwayFromStart(content: string, single: bool, inPhotos: bool)
    requires !LeadsWithCI(content, "print") && !LeadsWithCI(content, "buy")
    requires !LeadsWithCI(content, "interested in")
    ensures PrintCallToAction(content, single, inPhotos) == PrintCallToActionIntended(content, single, inPhotos)
  {
    AlreadyThereMeaning(content);
  }

  // ---------------------------------------------------------------------------
  // The archive title (get_the_archive_title filter)

  const CategoryLabel: string := "Category: "

  /** `swanwick_archive_title`: a non-empty original title wins; otherwise every
      "Category: " is removed from the title. */
  function ArchiveTitle(title: string, originalTitle: string): (r: string)
    ensures !Empty(originalTitle) ==> r == originalTitle
    ensures Empty(originalTitle) ==> |r| <= |title|
    ensures Empty(originalTitle) ==> (r == title <==> !Contains(title, CategoryLabel))
  {
    if !Empty(originalTitle) then originalTitle
    else
      StrRemoveChangesIff(CategoryLabel, title);
      StrRemoveShrinks(CategoryLabel, title);
      StrReplace(CategoryLabel, "", title)
  }

  /** A category archive's "Category: Name" title becomes just the name. */
  lemma ArchiveTitleDropsLabel(name: string, originalTitle: string)
    requires Empty(originalTitle)
    requires !Contains(name, CategoryLabel)
    ensures ArchiveTitle(CategoryLabel + name, originalTitle) == name
  {
    StrReplaceLeading(CategoryLabel, "", name);
    StrReplaceAbsent(CategoryLabel, "", name);
  }

  lemma ArchiveTitlePhotos()
    ensures ArchiveTitle("Category: Photos", "") == "Photos"
  {
    assert !Contains("Photos", CategoryLabel);
    assert CategoryLabel + "Photos" == "Category: Photos";
    ArchiveTitleDropsLabel("Photos", "");
  }

  // ---------------------------------------------------------------------------
  // The has-thumbnail heuristic (has_post_thumbnail filter)

  const ImgTag: string := "<img"

  /** `swanwick_find_featured_image`: a post without a featured image is said to
      have one when its content holds an `<img` tag. `post` is what `get_post`
      resolves to: the post's content, or None when it is not a post. */
  function FindFeaturedImage(hasThumbnail: bool, post: Option<string>): (r: bool)
    ensures hasThumbnail ==> r
    ensures !hasThumbnail && post.None? ==> !r
    ensures !hasThumbnail && post.Some? ==> (r <==> Contains(post.value, ImgTag))
  {
    if !hasThumbnail then
      match post
      case Some(content) => StrPos(content, ImgTag).Some?
      case None => hasThumbnail
    else hasThumbnail
  }

  /** Unlike the call-to-action test, `!== false` makes an `<img` at offset 0 count. */
  lemma ImgAtStartCounts(content: string)
    requires OccursAt(content, ImgTag, 0)
    ensures FindFeaturedImage(false, Some(content))
  {
  }

  // ---------------------------------------------------------------------------
  // The featured-image linkifier (post_thumbnail_html filter)

  const DefaultCaption: string := "Full size"
  const FigureClose: string := "</a></figure>"

  /** The link title: the attachment's caption, or "Full size" when it is empty. */
  function LinkTitle(caption: string): (t: string)
    ensures Empty(caption) ==> t == DefaultCaption
    ensures !Empty(caption) ==> t == caption
    ensures !Empty(t)
  {
    if Empty(caption) then DefaultCaption else caption
  }

  function FigureOpen(url: string, title: string): string {
    "<figure><a href=\"" + url + "\" title=\"" + title + "\">"
  }

  /** The linkifier wraps the image exactly when it is on a singular view and the
      full-size source yields a non-empty URL. */
  predicate Linkifies(singular: bool, fullSizeUrl: Option<string>) {
    singular && fullSizeUrl.Some? && !Empty(fullSizeUrl.value)
  }

  /** `swanwick_linkify_featured_image`. `fullSizeUrl` is the escaped first
      element of the full-size attachment source, or None when there is no
      source; `caption` is the attachment caption ("" when it has none). */
  function LinkifyFeaturedImage(html: string, singular: bool, fullSizeUrl: Option<string>, caption: string): (r: string)
    ensures r == html <==> !Linkifies(singular, fullSizeUrl)
    ensures Linkifies(singular, fullSizeUrl) ==>
      r == FigureOpen(fullSizeUrl.value, LinkTitle(caption)) + html + FigureClose
  {
    if singular then
      match fullSizeUrl
      case Some(url) =>
        if !Empty(url) then FigureOpen(url, LinkTitle(caption)) + html + FigureClose else html
      case None => html
    else html
  }
}
