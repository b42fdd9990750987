/**
 * The two helpers of the shared utility file: a stable in-place sort of an
 * array by a string-valued property, and title-casing of a name.
 */
module Utils {

  import opened JsString

  // ---------------------------------------------------------------------
  // sortObjArrByProp: specification
  // ---------------------------------------------------------------------

  /** Ascending by key: no later element's key is smaller than an earlier one's. */
  ghost predicate SortedBy<T>(s: seq<T>, key: T -> string) {
    forall i, j :: 0 <= i < j < |s| ==> !StrLess(key(s[j]), key(s[i]))
  }

  /** The elements of `s` whose key is `k`, in their order in `s`. */
  function WithKey<T>(s: seq<T>, key: T -> string, k: string): seq<T> {
    if s == [] then []
    else WithKey(s[..|s| - 1], key, k) + (if key(s[|s| - 1]) == k then [s[|s| - 1]] else [])
  }

  /** Places `x` after every element of `s` whose key is not greater than its own. */
  function Insert<T>(s: seq<T>, x: T, key: T -> string): seq<T> {
    if s == [] || !StrLess(key(x), key(s[|s| - 1])) then s + [x]
    else Insert(s[..|s| - 1], x, key) + [s[|s| - 1]]
  }

  /**
   * The stable ascending sort by key that ECMA-262 `Array.prototype.sort`
   * must produce for the comparator of sortObjArrByProp (it returns -1, 1 or
   * 0 as the first key is smaller, greater or neither).
   */
  function StableSort<T>(s: seq<T>, key: T -> string): (r: seq<T>)
    ensures |r| == |s|
  {
    if s == [] then []
    else
      InsertPermutes(StableSort(s[..|s| - 1], key), s[|s| - 1], key);
      Insert(StableSort(s[..|s| - 1], key), s[|s| - 1], key)
  }

  lemma {:induction false} InsertPermutes<T>(s: seq<T>, x: T, key: T -> string)
    ensures |Insert(s, x, key)| == |s| + 1
    ensures multiset(Insert(s, x, key)) == multiset(s) + multiset{x}
    decreases |s|
  {
    if s != [] && StrLess(key(x), key(s[|s| - 1])) {
      InsertPermutes(s[..|s| - 1], x, key);
      assert s == s[..|s| - 1] + [s[|s| - 1]];
    }
  }

  lemma {:induction false} InsertSorted<T>(s: seq<T>, x: T, key: T -> string)
    requires SortedBy(s, key)
    ensures SortedBy(Insert(s, x, key), key)
    decreases |s|
  {
    InsertPermutes(s, x, key);
    var r := Insert(s, x, key);
    if s == [] {
    } else if !StrLess(key(x), key(s[|s| - 1])) {
      forall i, j | 0 <= i < j < |r| ensures !StrLess(key(r[j]), key(r[i])) {
        if j == |s| && i < |s| - 1 {
          NotLessTransitive(key(s[i]), key(s[|s| - 1]), key(x));
        }
      }
    } else {
      var init := s[..|s| - 1];
      var last := s[|s| - 1];
      InsertSorted(init, x, key);
      var p := Insert(init, x, key);
      InsertPermutes(init, x, key);
      assert r == p + [last];
      forall i, j | 0 <= i < j < |r| ensures !StrLess(key(r[j]), key(r[i])) {
        if j == |r| - 1 {
          // every element of p is x or an element of init
          assert r[i] in multiset(p);
          assert r[i] == x || r[i] in init;
          if r[i] == x {
            StrLessAsymmetric(key(x), key(last));
          } else {
            var k :| 0 <= k < |init| && init[k] == r[i];
            assert s[k] == r[i];
          }
        }
      }
    }
  }

  /** Inserting `x` appends it to its own key class and leaves every other class as it was. */
  lemma {:induction false} InsertWithKey<T>(s: seq<T>, x: T, key: T -> string, k: string)
    ensures WithKey(Insert(s, x, key), key, k) == WithKey(s, key, k) + (if key(x) == k then [x] else [])
    decreases |s|
  {
    if s == [] {
      assert Insert(s, x, key) == [x];
      assert [x][..0] == [];
    } else if !StrLess(key(x), key(s[|s| - 1])) {
      assert (s + [x])[..|s|] == s;
    } else {
      var init := s[..|s| - 1];
      var last := s[|s| - 1];
      InsertWithKey(init, x, key, k);
      InsertPermutes(init, x, key);
      var r := Insert(init, x, key) + [last];
      assert r[..|r| - 1] == Insert(init, x, key);
      StrLessIrreflexive(key(x));
      assert key(last) != key(x);
    }
  }

  /** The stable sort is an ascending permutation that keeps each key class in input order. */
  lemma {:induction false} StableSortCorrect<T>(s: seq<T>, key: T -> string)
    ensures |StableSort(s, key)| == |s|
    ensures multiset(StableSort(s, key)) == multiset(s)
    ensures SortedBy(StableSort(s, key), key)
    ensures forall k :: WithKey(StableSort(s, key), key, k) == WithKey(s, key, k)
    decreases |s|
  {
    if s != [] {
      var init := s[..|s| - 1];
      var last := s[|s| - 1];
      StableSortCorrect(init, key);
      InsertPermutes(StableSort(init, key), last, key);
      InsertSorted(StableSort(init, key), last, key);
      assert s == init + [last];
      forall k ensures WithKey(StableSort(s, key), key, k) == WithKey(s, key, k) {
        InsertWithKey(StableSort(init, key), last, key, k);
      }
    }
  }

  /** The pointwise form of sortedness: adjacent elements are never out of order. */
  lemma StableSortAdjacent<T>(s: seq<T>, key: T -> string, i: nat)
    requires i + 1 < |s|
    ensures |StableSort(s, key)| == |s|
    ensures !StrLess(key(StableSort(s, key)[i + 1]), key(StableSort(s, key)[i]))
  {
    StableSortCorrect(s, key);
  }

  // ---------------------------------------------------------------------
  // sortObjArrByProp: the in-place sort
  // ---------------------------------------------------------------------

  /**
   * Sorts `arr` in place, ascending by `key`, and returns the same array.
   * `key` stands for the property name the caller passes.
   */
  method SortObjArrByProp<T>(arr: array<T>, key: T -> string) returns (ascending: array<T>)
    modifies arr
    ensures ascending == arr
    ensures arr[..] == StableSort(old(arr[..]), key)
  {
    ghost var a0 := arr[..];
    var i := 0;
    while i < arr.Length
      invariant 0 <= i <= arr.Length
      invariant arr[..i] == StableSort(a0[..i], key)
      invariant arr[i..] == a0[i..]
    {
      InsertStep(arr, i, key);
      SortPrefixStep(a0, key, i);
      i := i + 1;
    }
    assert a0[..arr.Length] == a0;
    ascending := arr;
  }

  /** One step of insertion sort: moves `arr[i]` left past every greater key in the sorted prefix. */
  method InsertStep<T>(arr: array<T>, i: nat, key: T -> string)
    requires i < arr.Length
    modifies arr
    ensures arr[..i + 1] == Insert(old(arr[..i]), old(arr[i]), key)
    ensures arr[i + 1..] == old(arr[i + 1..])
  {
    ghost var sorted := arr[..i];
    var x := arr[i];
    var j := i;
    while j > 0 && StrLess(key(x), key(arr[j - 1]))
      invariant 0 <= j <= i
      invariant arr[..j] == sorted[..j]
      invariant arr[j + 1..i + 1] == sorted[j..i]
      invariant arr[i + 1..] == old(arr[i + 1..])
      invariant forall k :: j <= k < i ==> StrLess(key(x), key(sorted[k]))
    {
      arr[j] := arr[j - 1];
      j := j - 1;
    }
    arr[j] := x;
    InsertPosition(sorted, x, key, j);
    assert arr[..i + 1] == arr[..j] + [arr[j]] + arr[j + 1..i + 1];
  }

  /**
   * Insert puts `x` at `j` when every key from `j` on is greater than its
   * own and the key just before `j` is not.
   */
  lemma {:induction false} InsertPosition<T>(sorted: seq<T>, x: T, key: T -> string, j: nat)
    requires j <= |sorted|
    requires forall k :: j <= k < |sorted| ==> StrLess(key(x), key(sorted[k]))
    requires j == 0 || !StrLess(key(x), key(sorted[j - 1]))
    ensures Insert(sorted, x, key) == sorted[..j] + [x] + sorted[j..]
    decreases |sorted|
  {
    if j < |sorted| {
      var n := |sorted|;
      var front := sorted[..n - 1];
      assert front[..j] == sorted[..j];
      assert forall k :: j <= k < |front| ==> front[k] == sorted[k];
      InsertPosition(front, x, key, j);
      assert sorted[j..] == front[j..] + [sorted[n - 1]];
    }
  }

  lemma SortPrefixStep<T>(a: seq<T>, key: T -> string, i: nat)
    requires i < |a|
    ensures StableSort(a[..i + 1], key) == Insert(StableSort(a[..i], key), a[i], key)
  {
    assert a[..i + 1][..i] == a[..i];
  }

  // ---------------------------------------------------------------------
  // toTitleCase
  // ---------------------------------------------------------------------

  /** The first index at or after `p` that does not hold a digit. */
  function DigitRunEnd(s: string, p: nat): (e: nat)
    requires p <= |s|
    ensures p <= e <= |s|
    ensures forall i :: p <= i < e ==> IsDigit(s[i])
    ensures e == |s| || !IsDigit(s[e])
    decreases |s| - p
  {
    if p == |s| || !IsDigit(s[p]) then p else DigitRunEnd(s, p + 1)
  }

  /**
   * The global replace of `/\d+[A-Za-z]|\b[a-z]/g` by the upper-cased
   * match, scanning `s` from index `p`: a digit run followed by a letter is
   * one match, a lower-case letter at a word boundary is another, and at
   * any other index the scan moves on by one character.
   */
  function ReplaceFrom(s: string, p: nat): string
    requires p <= |s|
    decreases |s| - p
  {
    if p == |s| then []
    else
      var e := DigitRunEnd(s, p);
      if e > p && e < |s| && IsAsciiLetter(s[e]) then
        Upper(s[p..e + 1]) + ReplaceFrom(s, e + 1)
      else if IsLowerAscii(s[p]) && (p == 0 || !IsWordChar(s[p - 1])) then
        Upper(s[p..p + 1]) + ReplaceFrom(s, p + 1)
      else
        [s[p]] + ReplaceFrom(s, p + 1)
  }

  /** toTitleCase: lower-case everything, then upper-case the matches of the scan. */
  function ToTitleCase(text: string): (r: string)
    ensures |r| == |text|
  {
    ReplaceFromLength(Lower(text), 0);
    ReplaceFrom(Lower(text), 0)
  }

  /** The scan replaces each match by a text of the same length. */
  lemma {:induction false} ReplaceFromLength(s: string, p: nat)
    requires p <= |s|
    ensures |ReplaceFrom(s, p)| == |s| - p
    decreases |s| - p
  {
    if p < |s| {
      var e := DigitRunEnd(s, p);
      if e > p && e < |s| && IsAsciiLetter(s[e]) {
        ReplaceFromLength(s, e + 1);
      } else {
        ReplaceFromLength(s, p + 1);
      }
    }
  }

  /** A letter at `i` starts a word: it is first, or follows a non-word character or a digit. */
  predicate StartsWord(s: string, i: nat)
    requires i < |s|
  {
    i == 0 || !IsWordChar(s[i - 1]) || IsDigit(s[i - 1])
  }

  /** What the scan leaves at index `i` of `s`. */
  function TitleChar(s: string, i: nat): char
    requires i < |s|
  {
    if IsAsciiLetter(s[i]) && StartsWord(s, i) then UpperChar(s[i]) else s[i]
  }

  /**
   * Where the scan can stand: right after a character that is not a digit,
   * or inside a digit run that is not followed by a letter.
   */
  ghost predicate ScanPosition(s: string, p: nat)
    requires p <= |s|
  {
    p == 0 || !IsDigit(s[p - 1]) ||
    (var e := DigitRunEnd(s, p); !(e < |s| && IsAsciiLetter(s[e])))
  }

  lemma DigitRunEndStep(s: string, p: nat)
    requires p < |s| && IsDigit(s[p])
    ensures DigitRunEnd(s, p) == DigitRunEnd(s, p + 1)
  {
  }

  /** What the scan leaves from `p` on agrees with TitleChar, given that it does from `q` on. */
  ghost predicate ScanAgrees(s: string, p: nat)
    requires p <= |s|
  {
    |ReplaceFrom(s, p)| == |s| - p &&
    forall i :: p <= i < |s| ==> ReplaceFrom(s, p)[i - p] == TitleChar(s, i)
  }

  lemma ScanStep(s: string, p: nat, q: nat, head: string)
    requires p < q <= |s|
    requires ReplaceFrom(s, p) == head + ReplaceFrom(s, q)
    requires |head| == q - p
    requires forall i :: p <= i < q ==> head[i - p] == TitleChar(s, i)
    requires ScanAgrees(s, q)
    ensures ScanAgrees(s, p)
  {
    forall i | p <= i < |s| ensures ReplaceFrom(s, p)[i - p] == TitleChar(s, i) {
      if i >= q {
        assert ReplaceFrom(s, p)[i - p] == ReplaceFrom(s, q)[i - q];
      }
    }
  }

  lemma ReplaceFromRun(s: string, p: nat, e: nat)
    requires p < e < |s| && e == DigitRunEnd(s, p) && IsAsciiLetter(s[e])
    ensures ReplaceFrom(s, p) == Upper(s[p..e + 1]) + ReplaceFrom(s, e + 1)
  {
  }

  /** A digit run and the letter after it: the letter starts a word. */
  lemma ScanMatchRun(s: string, p: nat, e: nat)
    requires p < e < |s| && e == DigitRunEnd(s, p) && IsAsciiLetter(s[e])
    requires ScanAgrees(s, e + 1)
    ensures ScanAgrees(s, p)
  {
    var head := Upper(s[p..e + 1]);
    ReplaceFromRun(s, p, e);
    RunChars(s, p, e);
    ScanStep(s, p, e + 1, head);
  }

  lemma RunChars(s: string, p: nat, e: nat)
    requires p < e < |s| && IsAsciiLetter(s[e])
    requires forall i :: p <= i < e ==> IsDigit(s[i])
    ensures forall i :: p <= i < e + 1 ==> Upper(s[p..e + 1])[i - p] == TitleChar(s, i)
  {
    var head := Upper(s[p..e + 1]);
    forall i | p <= i < e + 1 ensures head[i - p] == TitleChar(s, i) {
      if i < e {
        assert IsDigit(s[i]);
      } else {
        assert IsDigit(s[e - 1]);
      }
    }
  }

  /** A lower-case letter at a word boundary. */
  lemma ScanMatchLetter(s: string, p: nat)
    requires p < |s|
    requires var e := DigitRunEnd(s, p); !(e > p && e < |s| && IsAsciiLetter(s[e]))
    requires IsLowerAscii(s[p]) && (p == 0 || !IsWordChar(s[p - 1]))
    requires ScanAgrees(s, p + 1)
    ensures ScanAgrees(s, p)
  {
    var head := Upper(s[p..p + 1]);
    assert ReplaceFrom(s, p) == head + ReplaceFrom(s, p + 1);
    assert StartsWord(s, p);
    assert head[0] == UpperChar(s[p]) == TitleChar(s, p);
    ScanStep(s, p, p + 1, head);
  }

  /** No match at `p`: the character is left as it is. */
  lemma ScanNoMatch(s: string, p: nat)
    requires p < |s| && ScanPosition(s, p)
    requires var e := DigitRunEnd(s, p); !(e > p && e < |s| && IsAsciiLetter(s[e]))
    requires !(IsLowerAscii(s[p]) && (p == 0 || !IsWordChar(s[p - 1])))
    requires ScanAgrees(s, p + 1)
    ensures ScanAgrees(s, p)
  {
    assert ReplaceFrom(s, p) == [s[p]] + ReplaceFrom(s, p + 1);
    assert IsUpperAscii(s[p]) ==> UpperChar(s[p]) == s[p];
    ScanStep(s, p, p + 1, [s[p]]);
  }

  /** After a character that is not a match, the scan still stands at a scan position. */
  lemma ScanNoMatchNext(s: string, p: nat)
    requires p < |s|
    requires var e := DigitRunEnd(s, p); !(e > p && e < |s| && IsAsciiLetter(s[e]))
    ensures ScanPosition(s, p + 1)
  {
    if IsDigit(s[p]) {
      DigitRunEndStep(s, p);
    }
  }

  lemma {:induction false} ReplaceFromChars(s: string, p: nat)
    requires p <= |s|
    requires ScanPosition(s, p)
    ensures ScanAgrees(s, p)
    decreases |s| - p
  {
    if p < |s| {
      var e := DigitRunEnd(s, p);
      if e > p && e < |s| && IsAsciiLetter(s[e]) {
        ReplaceFromChars(s, e + 1);
        ScanMatchRun(s, p, e);
      } else if IsLowerAscii(s[p]) && (p == 0 || !IsWordChar(s[p - 1])) {
        ReplaceFromChars(s, p + 1);
        ScanMatchLetter(s, p);
      } else {
        ScanNoMatchNext(s, p);
        ReplaceFromChars(s, p + 1);
        ScanNoMatch(s, p);
      }
    }
  }

  /** Lower-casing keeps the character classes the scan looks at. */
  lemma LowerCharClasses(c: char)
    ensures IsAsciiLetter(LowerChar(c)) == IsAsciiLetter(c)
    ensures IsWordChar(LowerChar(c)) == IsWordChar(c)
    ensures IsDigit(LowerChar(c)) == IsDigit(c)
    ensures IsAsciiLetter(c) ==> UpperChar(LowerChar(c)) == UpperChar(c)
    ensures !IsAsciiLetter(c) ==> LowerChar(c) == c
  {
  }

  /**
   * toTitleCase keeps the length and every non-letter, upper-cases exactly
   * the letters that start a word, and lower-cases every other letter.
   */
  lemma TitleCaseChars(text: string)
    ensures |ToTitleCase(text)| == |text|
    ensures forall i :: 0 <= i < |text| && !IsAsciiLetter(text[i]) ==> ToTitleCase(text)[i] == text[i]
    ensures forall i :: 0 <= i < |text| && IsAsciiLetter(text[i]) ==>
      ToTitleCase(text)[i] == if StartsWord(text, i) then UpperChar(text[i]) else LowerChar(text[i])
  {
    var l := Lower(text);
    ReplaceFromChars(l, 0);
    var r := ToTitleCase(text);
    forall i | 0 <= i < |text|
      ensures r[i] == if IsAsciiLetter(text[i]) && StartsWord(text, i) then UpperChar(text[i]) else LowerChar(text[i])
    {
      LowerCharClasses(text[i]);
      if i > 0 {
        LowerCharClasses(text[i - 1]);
      }
      assert r[i] == TitleChar(l, i);
    }
    forall i | 0 <= i < |text| && !IsAsciiLetter(text[i]) ensures r[i] == text[i] {
      LowerCharClasses(text[i]);
    }
  }

  /** Title-casing an already title-cased text changes nothing. */
  lemma TitleCaseIdempotent(text: string)
    ensures ToTitleCase(ToTitleCase(text)) == ToTitleCase(text)
  {
    var t := ToTitleCase(text);
    TitleCaseChars(text);
    forall i | 0 <= i < |t| ensures Lower(t)[i] == Lower(text)[i] {
      LowerCharClasses(text[i]);
    }
    assert Lower(t) == Lower(text);
  }

  lemma TitleCaseExample()
    ensures ToTitleCase("new york") == "New York"
  {
    var r := ToTitleCase("new york");
    TitleCaseChars("new york");
    assert StartsWord("new york", 4);
    assert r == "New York";
  }
}
