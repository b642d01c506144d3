/** The one regular expression the fallback resolver runs over a post's content,
    `/<!-- wp:(image|gallery) {"ids?":\[?(\d+),/`, as a hand-written leftmost
    matcher. It finds the first image or gallery block marker of the block
    editor and captures the first attachment id listed in it. */
module BlockMarker {
  import opened PhpStrings

  datatype Kind = Image | Gallery

  function KindName(k: Kind): string {
    match k
    case Image => "image"
    case Gallery => "gallery"
  }

  const Opening: string := "<!-- wp:"
  const IdKey: string := " {\"id"
  const KeyEnd: string := "\":"

  /** The choices the pattern makes before the digits: which alternative of
      `(image|gallery)`, whether the optional `s` and the optional `[` are taken. */
  datatype HeadChoice = HeadChoice(kind: Kind, plural: bool, bracket: bool)

  /** Everything the pattern matches before the captured digits. */
  function Head(h: HeadChoice): string {
    Opening + KindName(h.kind) + IdKey + Optional(h.plural, "s") + KeyEnd + Optional(h.bracket, "[")
  }

  /** An optional piece of the pattern: `c` when taken, nothing otherwise. */
  function Optional(taken: bool, c: string): string {
    if taken then c else ""
  }

  predicate IsDigit(c: char) {
    '0' <= c <= '9'
  }

  predicate AllDigits(s: string) {
    forall i :: 0 <= i < |s| ==> IsDigit(s[i])
  }

  /** One way the pattern can match: where it starts, the choices its head
      took, and the digits of the second group. */
  datatype BlockMatch = BlockMatch(start: nat, head: HeadChoice, id: string)

  /** The text of the whole match (group 0). */
  function MatchText(m: BlockMatch): string {
    Head(m.head) + m.id + ","
  }

  /** `m` describes a match of the pattern in `s`. */
  predicate Matches(s: string, m: BlockMatch) {
    OccursAt(s, MatchText(m), m.start) && |m.id| > 0 && AllDigits(m.id)
  }

  /** The end of the run of digits that starts at `j`. */
  function DigitRunEnd(s: string, j: nat): (k: nat)
    requires j <= |s|
    ensures j <= k <= |s|
    ensures AllDigits(s[j..k])
    ensures k < |s| ==> !IsDigit(s[k])
    decreases |s| - j
  {
    if j < |s| && IsDigit(s[j]) then DigitRunEnd(s, j + 1) else j
  }

  /** Where the optional `s` would sit, for a head starting at `i`. */
  function PluralAt(i: nat, k: Kind): nat {
    i + |Opening| + |KindName(k)| + |IdKey|
  }

  /** Where `":` sits. */
  function KeyEndAt(i: nat, k: Kind, plural: bool): nat {
    PluralAt(i, k) + |Optional(plural, "s")|
  }

  /** Where the optional `[` would sit. */
  function BracketAt(i: nat, k: Kind, plural: bool): nat {
    KeyEndAt(i, k, plural) + |KeyEnd|
  }

  /** Where the digits start. */
  function DigitsAt(i: nat, h: HeadChoice): nat {
    BracketAt(i, h.kind, h.plural) + |Optional(h.bracket, "[")|
  }

  /** Each piece of the head with the choices `h` occurs where it should. */
  predicate PiecesAt(s: string, i: nat, h: HeadChoice) {
    && OccursAt(s, Opening, i)
    && OccursAt(s, KindName(h.kind), i + |Opening|)
    && OccursAt(s, IdKey, i + |Opening| + |KindName(h.kind)|)
    && OccursAt(s, Optional(h.plural, "s"), PluralAt(i, h.kind))
    && OccursAt(s, KeyEnd, KeyEndAt(i, h.kind, h.plural))
    && OccursAt(s, Optional(h.bracket, "["), BracketAt(i, h.kind, h.plural))
  }

  /** The part of the pattern before `(\d+)`, anchored at `i`. Every choice is
      decided by looking at the next character, so no backtracking is needed:
      `image` and `gallery` differ in their first letter, and the optional `s`
      and `[` are taken when present (when absent, the character found there
      cannot continue the pattern anyway). */
  function HeadAt(s: string, i: nat): Option<HeadChoice> {
    var k := if OccursAt(s, "image", i + |Opening|) then Image else Gallery;
    var plural := OccursAt(s, "s", PluralAt(i, k));
    var bracket := OccursAt(s, "[", BracketAt(i, k, plural));
    var h := HeadChoice(k, plural, bracket);
    if PiecesAt(s, i, h) then Some(h) else None
  }

  /** The pattern anchored at `i`: the head, then a maximal run of digits that
      must be followed by a comma (giving back digits cannot help, since the
      character after a shorter run is a digit, not a comma). */
  function MatchAt(s: string, i: nat): Option<BlockMatch> {
    match HeadAt(s, i)
    case None => None
    case Some(h) =>
      var f := DigitsAt(i, h);
      if f > |s| then None
      else
        var g := DigitRunEnd(s, f);
        if f < g < |s| && s[g] == ',' then Some(BlockMatch(i, h, s[f..g]))
        else None
  }

  lemma OccursAtConcat(h: string, x: string, y: string, p: nat)
    ensures OccursAt(h, x + y, p) <==> OccursAt(h, x, p) && OccursAt(h, y, p + |x|)
  {
    if OccursAt(h, x, p) && OccursAt(h, y, p + |x|) {
      assert h[p..p + |x + y|] == h[p..p + |x|] + h[p + |x|..p + |x| + |y|];
    }
    if OccursAt(h, x + y, p) {
      assert h[p..p + |x|] == (x + y)[..|x|];
      assert h[p + |x|..p + |x| + |y|] == (x + y)[|x|..];
    }
  }

  /** An occurrence of six concatenated pieces is an occurrence of each piece,
      one after the other. */
  lemma OccursAtPieces(h: string, x1: string, x2: string, x3: string, x4: string,
                       x5: string, x6: string, p1: nat, p2: nat, p3: nat, p4: nat, p5: nat, p6: nat)
    requires p2 == p1 + |x1| && p3 == p2 + |x2| && p4 == p3 + |x3|
    requires p5 == p4 + |x4| && p6 == p5 + |x5|
    ensures OccursAt(h, x1 + x2 + x3 + x4 + x5 + x6, p1) <==>
      && OccursAt(h, x1, p1)
      && OccursAt(h, x2, p2)
      && OccursAt(h, x3, p3)
      && OccursAt(h, x4, p4)
      && OccursAt(h, x5, p5)
      && OccursAt(h, x6, p6)
  {
    OccursAtConcat(h, x1 + x2 + x3 + x4 + x5, x6, p1);
    OccursAtConcat(h, x1 + x2 + x3 + x4, x5, p1);
    OccursAtConcat(h, x1 + x2 + x3, x4, p1);
    OccursAtConcat(h, x1 + x2, x3, p1);
    OccursAtConcat(h, x1, x2, p1);
  }

  lemma HeadLength(i: nat, h: HeadChoice)
    ensures |Head(h)| == DigitsAt(i, h) - i
  {
  }

  /** The head occurs exactly when each of its pieces does. */
  lemma HeadPieces(s: string, i: nat, h: HeadChoice)
    ensures OccursAt(s, Head(h), i) <==> PiecesAt(s, i, h)
  {
    OccursAtPieces(s, Opening, KindName(h.kind), IdKey, Optional(h.plural, "s"), KeyEnd, Optional(h.bracket, "["),
                   i, i + |Opening|, i + |Opening| + |KindName(h.kind)|, PluralAt(i, h.kind),
                   KeyEndAt(i, h.kind, h.plural), BracketAt(i, h.kind, h.plural));
  }

  lemma HeadAtSound(s: string, i: nat)
    ensures HeadAt(s, i).Some? ==> OccursAt(s, Head(HeadAt(s, i).value), i)
  {
    if HeadAt(s, i).Some? {
      HeadPieces(s, i, HeadAt(s, i).value);
    }
  }

  /** A head followed by a digit is the head HeadAt finds. */
  lemma HeadAtComplete(s: string, i: nat, h: HeadChoice)
    requires OccursAt(s, Head(h), i)
    requires DigitsAt(i, h) < |s| && IsDigit(s[DigitsAt(i, h)])
    ensures HeadAt(s, i) == Some(h)
  {
    HeadPieces(s, i, h);
    var a := i + |Opening|;
    var c := PluralAt(i, h.kind);
    var e := BracketAt(i, h.kind, h.plural);
    if h.kind == Gallery {
      assert s[a] == 'g';
    }
    assert OccursAt(s, "image", a) <==> h.kind == Image;
    if !h.plural {
      assert s[c] == '"';
    }
    assert OccursAt(s, "s", c) <==> h.plural;
    if !h.bracket {
      assert IsDigit(s[e]);
    }
    assert OccursAt(s, "[", e) <==> h.bracket;
  }

  /** An occurrence of `x + y + [c]`, piece by piece. */
  lemma OccursAtThree(s: string, p: nat, x: string, y: string, c: char)
    ensures OccursAt(s, x + y + [c], p) <==>
      && OccursAt(s, x, p)
      && p + |x| + |y| < |s| && s[p + |x|..p + |x| + |y|] == y && s[p + |x| + |y|] == c
  {
    OccursAtConcat(s, x + y, [c], p);
    OccursAtConcat(s, x, y, p);
    if p + |x| + |y| < |s| {
      assert s[p + |x| + |y|..p + |x| + |y| + 1] == [s[p + |x| + |y|]];
    }
  }

  /** A match, seen as its head, its digits and the comma after them. */
  lemma MatchParts(s: string, m: BlockMatch)
    ensures
      var h := m.head;
      var f := DigitsAt(m.start, h);
      Matches(s, m) <==>
        && OccursAt(s, Head(h), m.start)
        && 0 < |m.id| && AllDigits(m.id)
        && f + |m.id| < |s| && s[f..f + |m.id|] == m.id && s[f + |m.id|] == ','
  {
    var h := m.head;
    var whole := Head(h) + m.id + [','];
    assert MatchText(m) == whole;
    HeadLength(m.start, h);
    OccursAtThree(s, m.start, Head(h), m.id, ',');
  }

  /** A head, a digit run and a comma after it make a match. */
  lemma HeadMatch(s: string, i: nat, h: HeadChoice, g: nat)
    requires OccursAt(s, Head(h), i)
    requires DigitsAt(i, h) < g < |s| && s[g] == ','
    requires AllDigits(s[DigitsAt(i, h)..g])
    ensures Matches(s, BlockMatch(i, h, s[DigitsAt(i, h)..g]))
  {
    var f := DigitsAt(i, h);
    var m := BlockMatch(i, h, s[f..g]);
    assert f + |m.id| == g;
    assert s[f..f + |m.id|] == m.id;
    MatchParts(s, m);
  }

  /** What the anchored matcher returns, when it returns something. */
  lemma MatchAtShape(s: string, i: nat)
    requires MatchAt(s, i).Some?
    ensures HeadAt(s, i).Some?
    ensures
      var h := HeadAt(s, i).value;
      var f := DigitsAt(i, h);
      var g := DigitRunEnd(s, f);
      && f < g < |s| && s[g] == ','
      && MatchAt(s, i).value == BlockMatch(i, h, s[f..g])
  {
  }

  /** Whatever the anchored matcher returns is a match starting there. */
  lemma MatchAtSound(s: string, i: nat)
    ensures MatchAt(s, i).Some? ==> Matches(s, MatchAt(s, i).value) && MatchAt(s, i).value.start == i
  {
    if MatchAt(s, i).Some? {
      MatchAtShape(s, i);
      HeadAtSound(s, i);
      var h := HeadAt(s, i).value;
      var f := DigitsAt(i, h);
      var g := DigitRunEnd(s, f);
      HeadMatch(s, i, h, g);
    }
  }

  /** A digit run that ends before a non-digit is exactly what DigitRunEnd finds. */
  lemma {:induction false} DigitRunEndAt(s: string, j: nat, k: nat)
    requires j <= k < |s|
    requires AllDigits(s[j..k]) && !IsDigit(s[k])
    ensures DigitRunEnd(s, j) == k
    decreases k - j
  {
    if j < k {
      assert IsDigit(s[j..k][0]);
      assert s[j + 1..k] == s[j..k][1..];
      DigitRunEndAt(s, j + 1, k);
    }
  }

  /** A match is found by the anchored matcher at its start. */
  lemma MatchAtFinds(s: string, m: BlockMatch)
    requires Matches(s, m)
    ensures MatchAt(s, m.start) == Some(m)
  {
    var h := m.head;
    MatchParts(s, m);
    var f := DigitsAt(m.start, h);
    var g := f + |m.id|;
    assert s[f] == m.id[0];
    HeadAtComplete(s, m.start, h);
    DigitRunEndAt(s, f, g);
  }

  /** Every match starting at `i` is the one the anchored matcher returns, so at
      each position there is at most one match. */
  lemma MatchAtComplete(s: string, i: nat)
    ensures forall m :: Matches(s, m) && m.start == i ==> MatchAt(s, i) == Some(m)
  {
    forall m | Matches(s, m) && m.start == i
      ensures MatchAt(s, i) == Some(m)
    {
      MatchAtFinds(s, m);
    }
  }

  /** Two matches that start at the same place are the same match: the captured
      id is determined by where the match begins. */
  lemma MatchUnique(s: string, m1: BlockMatch, m2: BlockMatch)
    requires Matches(s, m1) && Matches(s, m2) && m1.start == m2.start
    ensures m1 == m2
  {
    MatchAtComplete(s, m1.start);
  }

  /** The leftmost match at or after `i`, trying each start in turn. */
  function FirstMatchFrom(s: string, i: nat): (r: Option<BlockMatch>)
    ensures r.Some? ==> Matches(s, r.value) && i <= r.value.start
    ensures forall m :: Matches(s, m) && i <= m.start ==> r.Some? && r.value.start <= m.start
    decreases |s| + 1 - i
  {
    if i > |s| then None
    else
      MatchAtSound(s, i);
      MatchAtComplete(s, i);
      match MatchAt(s, i)
      case Some(m) => Some(m)
      case None => FirstMatchFrom(s, i + 1)
  }

  /** `preg_match` with this pattern: the match that starts leftmost, or none. */
  function LeftmostMatch(s: string): (r: Option<BlockMatch>)
    ensures r.Some? ==> Matches(s, r.value)
    ensures r.Some? ==> forall m :: Matches(s, m) ==> r.value.start <= m.start
    ensures r.None? ==> forall m :: !Matches(s, m)
  {
    FirstMatchFrom(s, 0)
  }
}
