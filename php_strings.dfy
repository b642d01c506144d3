/** The few PHP string built-ins the theme's filters rely on, over strings whose
    characters stand for bytes: `strpos`, `stripos` (ASCII case folding),
    `str_replace`, `empty()` on a string and the truthiness of an `int|false`. */
module PhpStrings {

  datatype Option<T> = None | Some(value: T)

  /** The needle `n` occurs in the haystack `h` starting at offset `p`. */
  predicate OccursAt(h: string, n: string, p: nat) {
    p + |n| <= |h| && h[p..p + |n|] == n
  }

  predicate Contains(h: string, n: string) {
    exists p: nat | p <= |h| :: OccursAt(h, n, p)
  }

  /** PHP `empty()` on a string: the empty string and "0" are both empty. */
  predicate Empty(s: string) {
    s == "" || s == "0"
  }

  /** PHP truthiness of the `int|false` that `strpos`/`stripos` return:
      `false` and the position 0 are both falsy. */
  predicate Truthy(r: Option<nat>) {
    r.Some? && r.value != 0
  }

  /** `strpos` started at offset `i`: the first occurrence at or after `i`. */
  function StrPosFrom(h: string, n: string, i: nat): (r: Option<nat>)
    ensures r.Some? ==> i <= r.value && OccursAt(h, n, r.value)
    ensures r.Some? ==> forall q: nat :: i <= q < r.value ==> !OccursAt(h, n, q)
    ensures r.None? ==> forall q: nat :: i <= q ==> !OccursAt(h, n, q)
    decreases |h| + 1 - i
  {
    if i + |n| > |h| then None
    else if h[i..i + |n|] == n then Some(i)
    else StrPosFrom(h, n, i + 1)
  }

  /** PHP `strpos($h, $n)`: the offset of the leftmost occurrence, or false. */
  function StrPos(h: string, n: string): (r: Option<nat>)
    ensures r.Some? ==> OccursAt(h, n, r.value) && forall q: nat :: q < r.value ==> !OccursAt(h, n, q)
    ensures r.None? <==> !Contains(h, n)
  {
    StrPosFrom(h, n, 0)
  }

  function LowerChar(c: char): char {
    if 'A' <= c <= 'Z' then (c as int + 32) as char else c
  }

  /** ASCII lower-casing, the folding `stripos` applies to both arguments. */
  function Lower(s: string): (r: string)
    ensures |r| == |s|
    ensures forall i :: 0 <= i < |s| ==> r[i] == LowerChar(s[i])
  {
    seq(|s|, i requires 0 <= i < |s| => LowerChar(s[i]))
  }

  lemma LowerAppend(a: string, b: string)
    ensures Lower(a + b) == Lower(a) + Lower(b)
  {
  }

  /** PHP `stripos($h, $n)`: `strpos` after folding both sides. */
  function StrIPos(h: string, n: string): (r: Option<nat>)
    ensures r.Some? ==> OccursAt(Lower(h), Lower(n), r.value)
    ensures r.Some? ==> forall q: nat :: q < r.value ==> !OccursAt(Lower(h), Lower(n), q)
    ensures r.None? <==> !Contains(Lower(h), Lower(n))
  {
    StrPos(Lower(h), Lower(n))
  }

  /** A needle with a character the haystack lacks occurs nowhere in it. */
  lemma AbsentChar(h: string, n: string, j: nat)
    requires j < |n| && n[j] !in h
    ensures !Contains(h, n)
  {
    forall p: nat | p + |n| <= |h| ensures !OccursAt(h, n, p) {
      assert h[p..p + |n|][j] == h[p + j] != n[j];
    }
  }

  /** A position returned by `strpos` is truthy exactly when the needle occurs
      somewhere but not at the very start: an occurrence at 0 hides every later one. */
  lemma TruthyStrPos(h: string, n: string)
    ensures Truthy(StrPos(h, n)) <==> Contains(h, n) && !OccursAt(h, n, 0)
  {
    var r := StrPos(h, n);
    if Contains(h, n) && !OccursAt(h, n, 0) {
      assert r.Some?;
      assert r.value != 0;
    }
  }

  /** PHP `str_replace($search, $replace, $subject)` for one search string:
      scans left to right, replacing each non-overlapping occurrence. An empty
      search string leaves the subject alone. */
  function StrReplace(search: string, replace: string, subject: string): (r: string)
    ensures search == [] ==> r == subject
    ensures replace == search ==> r == subject
    ensures |search| == |replace| ==> |r| == |subject|
    decreases |subject|
  {
    if search == [] || |subject| < |search| then subject
    else if subject[..|search|] == search then replace + StrReplace(search, replace, subject[|search|..])
    else [subject[0]] + StrReplace(search, replace, subject[1..])
  }

  lemma OccursInTail(s: string, n: string, k: nat, p: nat)
    requires k <= |s|
    requires OccursAt(s[k..], n, p)
    ensures OccursAt(s, n, p + k)
  {
    assert s[k..][p..p + |n|] == s[p + k..p + k + |n|];
  }

  lemma OccursAfterHead(s: string, n: string, p: nat)
    requires 0 < p && OccursAt(s, n, p)
    ensures OccursAt(s[1..], n, p - 1)
  {
    assert s[1..][p - 1..p - 1 + |n|] == s[p..p + |n|];
  }

  /** A subject without an occurrence of the search string comes back as it was. */
  lemma {:induction false} StrReplaceAbsent(search: string, replace: string, subject: string)
    requires !Contains(subject, search)
    ensures StrReplace(search, replace, subject) == subject
    decreases |subject|
  {
    if search == [] || |subject| < |search| {
    } else {
      assert !OccursAt(subject, search, 0);
      assert subject[..|search|] != search;
      forall p: nat | OccursAt(subject[1..], search, p) ensures false {
        OccursInTail(subject, search, 1, p);
      }
      StrReplaceAbsent(search, replace, subject[1..]);
    }
  }

  /** Removing a non-empty search string never lengthens the subject, and
      shortens it whenever the search string occurs. */
  lemma {:induction false} StrRemoveShrinks(search: string, subject: string)
    requires search != []
    ensures |StrReplace(search, "", subject)| <= |subject|
    ensures Contains(subject, search) ==> |StrReplace(search, "", subject)| < |subject|
    decreases |subject|
  {
    if |subject| < |search| {
      forall p: nat | OccursAt(subject, search, p) ensures false { }
    } else if subject[..|search|] == search {
      StrRemoveShrinks(search, subject[|search|..]);
    } else {
      StrRemoveShrinks(search, subject[1..]);
      if Contains(subject, search) {
        var p: nat :| p <= |subject| && OccursAt(subject, search, p);
        assert p != 0;
        OccursAfterHead(subject, search, p);
      }
    }
  }

  /** Removing a non-empty search string changes the subject exactly when the
      search string occurs in it. */
  lemma StrRemoveChangesIff(search: string, subject: string)
    requires search != []
    ensures StrReplace(search, "", subject) == subject <==> !Contains(subject, search)
  {
    StrRemoveShrinks(search, subject);
    if !Contains(subject, search) {
      StrReplaceAbsent(search, "", subject);
    }
  }

  /** A leading occurrence is replaced and the scan resumes right after it. */
  lemma StrReplaceLeading(search: string, replace: string, t: string)
    requires search != []
    ensures StrReplace(search, replace, search + t) == replace + StrReplace(search, replace, t)
  {
    assert (search + t)[..|search|] == search;
    assert (search + t)[|search|..] == t;
  }
}
