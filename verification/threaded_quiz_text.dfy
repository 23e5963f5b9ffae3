/** The threaded quiz's small string helpers: removing an authored
    "A." / "(A)" / "A)" prefix from an option, and spelling a list of option
    indices as letters for the review screen. */
module ThreadedQuizText {
  import opened Wrappers
  import opened JsString
  import opened JsArray

  /** `String.fromCharCode(65 + index)` for the first 26 options: the
      upper-case letter the option is shown under. */
  function ExpectedLetter(index: int): (c: char)
    requires 0 <= index < 26
    ensures 'A' <= c <= 'Z'
    ensures IsScalarCode(65 + index) && c == FromCharCode(65 + index)
  {
    (65 + index) as char
  }

  /** The regular-expression class `[\).]`. */
  predicate IsCloser(c: char) {
    c == ')' || c == '.'
  }

  /** Matching `^\(?L\)?[\).]` against `t`, followed by at least one
      white-space character for `\s+`: the position where the white space
      starts, or `None` when the pattern does not match. `\(?` can only be
      taken when `t` starts with "(", since "(" is not a letter. `\)?` is
      greedy: "L))" and "L)." are tried before the backtracking reading
      "L)" / "L.". */
  function PrefixEnd(t: string, letter: char): (e: Option<nat>)
    requires 'A' <= letter <= 'Z'
    ensures e.Some? ==> 2 <= e.value < |t| && IsSpace(t[e.value])
  {
    var p := if |t| > 0 && t[0] == '(' then 1 else 0;
    if p < |t| && SameLetterIgnoringCase(t[p], letter) then
      var q := p + 1;
      if q + 2 < |t| && t[q] == ')' && IsCloser(t[q + 1]) && IsSpace(t[q + 2]) then Some(q + 2)
      else if q + 1 < |t| && IsCloser(t[q]) && IsSpace(t[q + 1]) then Some(q + 1)
      else None
    else None
  }

  /** `stripLeadingOptionPrefix(option, index)`: when the option, after its
      leading white space, starts with its own letter in one of the prefix
      forms followed by white space, that prefix and the white space after it
      are removed; otherwise the option comes back untouched (leading white
      space included). Either way the result is a suffix of the option. */
  function StripLeadingOptionPrefix(option: string, index: int): (r: string)
    requires 0 <= index < 26
    ensures |r| <= |option| && r == option[|option| - |r|..]
    ensures PrefixEnd(TrimStart(option), ExpectedLetter(index)).None? ==> r == option
    ensures PrefixEnd(TrimStart(option), ExpectedLetter(index)).Some? ==>
              |r| + 3 <= |option| && (r == [] || !IsSpace(r[0]))
  {
    var trimmed := TrimStart(option);
    match PrefixEnd(trimmed, ExpectedLetter(index))
    case Some(e) =>
      StrippedIsShorterSuffix(option, trimmed, e);
      TrimStart(trimmed[e..])
    case None => option
  }

  /** Dropping a prefix of at least two characters and then the white space
      that starts the remainder leaves a suffix at least three shorter. */
  lemma StrippedIsShorterSuffix(option: string, trimmed: string, e: nat)
    requires |trimmed| <= |option| && trimmed == option[|option| - |trimmed|..]
    requires 2 <= e < |trimmed| && IsSpace(trimmed[e])
    ensures var r := TrimStart(trimmed[e..]);
      |r| + 3 <= |option| && r == option[|option| - |r|..]
  {
    var u := trimmed[e..];
    var r := TrimStart(u);
    TrimStartShortens(u);
    SuffixOfSuffix(trimmed, u, |r|);
    SuffixOfSuffix(option, trimmed, |r|);
  }

  /** A suffix of a suffix is a suffix. */
  lemma SuffixOfSuffix<T>(a: seq<T>, b: seq<T>, n: nat)
    requires |b| <= |a| && b == a[|a| - |b|..]
    requires n <= |b|
    ensures b[|b| - n..] == a[|a| - n..]
  {
  }

  /** The prefix spellings the pattern accepts: an optional "(", the letter
      in either case, an optional ")", then ")" or ".". */
  datatype PrefixForm = PrefixForm(open: bool, lower: bool, close: bool, last: char)

  predicate IsPrefixForm(f: PrefixForm) {
    IsCloser(f.last)
  }

  function Render(f: PrefixForm, index: int): (s: string)
    requires 0 <= index < 26
  {
    var letter := ExpectedLetter(index);
    (if f.open then "(" else "")
    + [if f.lower then letter + ('a' - 'A') else letter]
    + (if f.close then ")" else "")
    + [f.last]
  }

  /** Round trip: an option written as white space, a prefix for its own
      letter, white space and a text comes back as that text. */
  lemma StripPrefixedOption(lead: string, f: PrefixForm, index: int, gap: string, body: string)
    requires 0 <= index < 26
    requires IsPrefixForm(f)
    requires IsBlank(lead) && IsBlank(gap) && |gap| > 0
    requires body == [] || !IsSpace(body[0])
    ensures StripLeadingOptionPrefix(lead + Render(f, index) + gap + body, index) == body
  {
    var head := Render(f, index);
    var rest := gap + body;
    var t := head + rest;
    assert lead + head + gap + body == lead + t;
    assert rest[0] == gap[0];
    PrefixEndOfRendered(f, index, rest);
    TrimStartBlankThenRest(lead, t);
    assert t[|head|..] == rest;
    TrimStartBlankThenRest(gap, body);
  }

  /** The pattern recognises each rendered prefix, up to the white space
      that follows it. */
  lemma PrefixEndOfRendered(f: PrefixForm, index: int, rest: string)
    requires 0 <= index < 26
    requires IsPrefixForm(f)
    requires rest != [] && IsSpace(rest[0])
    ensures var t := Render(f, index) + rest;
      && t[0] == Render(f, index)[0]
      && !IsSpace(t[0])
      && PrefixEnd(t, ExpectedLetter(index)) == Some(|Render(f, index)|)
  {
    var letter := ExpectedLetter(index);
    var c := if f.lower then letter + ('a' - 'A') else letter;
    var t := Render(f, index) + rest;
    assert !IsCloser(rest[0]);
    if f.open && f.close {
      assert Render(f, index) == ['(', c, ')', f.last];
      assert t[0] == '(' && t[1] == c && t[2] == ')' && t[3] == f.last && t[4] == rest[0];
    } else if f.open {
      assert Render(f, index) == ['(', c, f.last];
      assert t[0] == '(' && t[1] == c && t[2] == f.last && t[3] == rest[0];
    } else if f.close {
      assert Render(f, index) == [c, ')', f.last];
      assert t[0] == c && t[1] == ')' && t[2] == f.last && t[3] == rest[0];
    } else {
      assert Render(f, index) == [c, f.last];
      assert t[0] == c && t[1] == f.last && t[2] == rest[0];
    }
  }

  /** Conversely, the pattern matches only a rendered prefix: whatever it
      recognises, up to the white space that follows, is one of the prefix
      spellings of the option's own letter. */
  lemma PrefixEndIsRendered(t: string, index: int)
    requires 0 <= index < 26
    requires PrefixEnd(t, ExpectedLetter(index)).Some?
    ensures var e := PrefixEnd(t, ExpectedLetter(index)).value;
      exists f :: IsPrefixForm(f) && t[..e] == Render(f, index)
  {
    var letter := ExpectedLetter(index);
    var e := PrefixEnd(t, letter).value;
    var open := t[0] == '(';
    var p := if open then 1 else 0;
    var lower := t[p] != letter;
    var close := e == p + 3;
    var f := PrefixForm(open, lower, close, t[e - 1]);
    var c := if lower then letter + ('a' - 'A') else letter;
    assert t[p] == c;
    if open && close {
      assert Render(f, index) == ['(', c, ')', t[e - 1]];
      assert t[..e] == ['(', t[1], t[2], t[3]];
    } else if open {
      assert Render(f, index) == ['(', c, t[e - 1]];
      assert t[..e] == ['(', t[1], t[2]];
    } else if close {
      assert Render(f, index) == [c, ')', t[e - 1]];
      assert t[..e] == [t[0], t[1], t[2]];
    } else {
      assert Render(f, index) == [c, t[e - 1]];
      assert t[..e] == [t[0], t[1]];
    }
    assert IsPrefixForm(f) && t[..e] == Render(f, index);
  }

  /** `t` starts with one of the prefix spellings of the letter of `index`,
      followed by white space. */
  ghost predicate StartsWithPrefix(t: string, index: int)
    requires 0 <= index < 26
  {
    exists f, e :: && IsPrefixForm(f) && 0 <= e < |t|
                   && t[..e] == Render(f, index) && IsSpace(t[e])
  }

  /** Whatever the pattern matches is a prefix spelling followed by white
      space. */
  lemma MatchStartsWithPrefix(t: string, index: int)
    requires 0 <= index < 26
    requires PrefixEnd(t, ExpectedLetter(index)).Some?
    ensures StartsWithPrefix(t, index)
  {
    var e := PrefixEnd(t, ExpectedLetter(index)).value;
    PrefixEndIsRendered(t, index);
    var f :| IsPrefixForm(f) && t[..e] == Render(f, index);
    assert 0 <= e < |t| && IsSpace(t[e]);
  }

  /** An option is changed only when, after its leading white space, it
      starts with one of the prefix spellings of its own letter followed by
      white space. */
  lemma StripChangesOnlyPrefixed(option: string, index: int)
    requires 0 <= index < 26
    requires StripLeadingOptionPrefix(option, index) != option
    ensures StartsWithPrefix(TrimStart(option), index)
  {
    var t := TrimStart(option);
    assert PrefixEnd(t, ExpectedLetter(index)).Some?;
    MatchStartsWithPrefix(t, index);
  }

  /** Another option's letter is not stripped. */
  lemma WrongLetterKept()
    ensures StripLeadingOptionPrefix("B. Amazon S3", 0) == "B. Amazon S3"
  {
    var t := "B. Amazon S3";
    assert t[0] == 'B';
    TrimStartNoLeadingSpace(t);
    assert PrefixEnd(t, 'A') == None;
  }

  /** A letter without a closing ")" or "." is not a prefix. */
  lemma BareLetterKept()
    ensures StripLeadingOptionPrefix("A Amazon S3", 0) == "A Amazon S3"
  {
    var t := "A Amazon S3";
    assert t[0] == 'A' && t[1] == ' ';
    TrimStartNoLeadingSpace(t);
    assert PrefixEnd(t, 'A') == None;
  }

  /** Every `65 + i` is a code `String.fromCharCode` turns into a scalar
      value; true of every index below 55231, so of every option index. */
  predicate AllScalarCodes(xs: seq<int>) {
    forall k :: 0 <= k < |xs| ==> IsScalarCode(65 + xs[k])
  }

  /** `String.fromCharCode(65 + i)` for each index, in order. */
  function Letters(xs: seq<int>): (cs: seq<char>)
    requires AllScalarCodes(xs)
    ensures |cs| == |xs|
  {
    seq(|xs|, k requires 0 <= k < |xs| => FromCharCode(65 + xs[k]))
  }

  /** `.join(', ')` of one-character strings: the characters at every third
      position, separated by a comma and a space. */
  function JoinLetters(cs: seq<char>): (r: string)
    requires |cs| > 0
    ensures |r| == 3 * |cs| - 2
    ensures forall k :: 0 <= k < |cs| ==> r[3 * k] == cs[k]
    ensures forall k :: 0 <= k < |r| && k % 3 != 0 ==> r[k] == (if k % 3 == 1 then ',' else ' ')
  {
    if |cs| == 1 then [cs[0]]
    else
      var init := JoinLetters(cs[..|cs| - 1]);
      JoinedOneMore(cs, init);
      init + ", " + [cs[|cs| - 1]]
  }

  /** Appending ", " and the last letter extends the joined prefix. */
  lemma JoinedOneMore(cs: seq<char>, init: string)
    requires |cs| > 1
    requires |init| == 3 * (|cs| - 1) - 2
    requires forall k :: 0 <= k < |cs| - 1 ==> init[3 * k] == cs[k]
    requires forall k :: 0 <= k < |init| && k % 3 != 0 ==> init[k] == (if k % 3 == 1 then ',' else ' ')
    ensures var r := init + ", " + [cs[|cs| - 1]];
      && |r| == 3 * |cs| - 2
      && (forall k :: 0 <= k < |cs| ==> r[3 * k] == cs[k])
      && (forall k :: 0 <= k < |r| && k % 3 != 0 ==> r[k] == (if k % 3 == 1 then ',' else ' '))
  {
    var r := init + ", " + [cs[|cs| - 1]];
    var n := |init|;
    assert r[n] == ',' && r[n + 1] == ' ' && r[n + 2] == cs[|cs| - 1];
    assert n % 3 == 1;
    forall k | 0 <= k < |cs|
      ensures r[3 * k] == cs[k]
    {
      if k < |cs| - 1 {
        assert r[3 * k] == init[3 * k];
      }
    }
    forall k | 0 <= k < |r| && k % 3 != 0
      ensures r[k] == (if k % 3 == 1 then ',' else ' ')
    {
      if k < n {
        assert r[k] == init[k];
      }
    }
  }

  /** `r` spells the indices `xs` as letters: the letter of `xs[k]` at
      every third position, ", " between them, and nothing more. */
  predicate SpellsLetters(r: string, xs: seq<int>)
    requires AllScalarCodes(xs)
  {
    && |r| == 3 * |xs| - 2
    && (forall k :: 0 <= k < |xs| ==> r[3 * k] == FromCharCode(65 + xs[k]))
    && (forall k :: 0 <= k < |r| && k % 3 != 0 ==> r[k] == (if k % 3 == 1 then ',' else ' '))
  }

  lemma JoinedLettersSpell(xs: seq<int>)
    requires AllScalarCodes(xs) && |xs| > 0
    ensures SpellsLetters(JoinLetters(Letters(xs)), xs)
  {
  }

  /** The placeholder shown for an empty answer list. */
  const NoAnswer: string := "\U{2014}"

  /** `formatIndicesAsLetters`: the em dash for an empty list; otherwise the
      letters of the indices in ascending order, joined by ", ". Duplicates
      are kept. */
  function FormatIndicesAsLetters(indices: seq<int>): (r: string)
    requires AllScalarCodes(indices)
    ensures indices == [] ==> r == NoAnswer
    ensures indices != [] ==> AllScalarCodes(Sort(indices)) && SpellsLetters(r, Sort(indices))
  {
    if |indices| == 0 then NoAnswer
    else
      var sorted := Sort(indices);
      SortKeepsCodes(indices);
      JoinedLettersSpell(sorted);
      JoinLetters(Letters(sorted))
  }

  lemma SortKeepsCodes(xs: seq<int>)
    requires AllScalarCodes(xs)
    ensures AllScalarCodes(Sort(xs))
  {
    CodesOfMembers(xs, Sort(xs));
  }

  /** Drawing every element from `xs` keeps the codes scalar. */
  lemma CodesOfMembers(xs: seq<int>, ys: seq<int>)
    requires AllScalarCodes(xs)
    requires forall k :: 0 <= k < |ys| ==> ys[k] in xs
    ensures AllScalarCodes(ys)
  {
    forall k | 0 <= k < |ys|
      ensures IsScalarCode(65 + ys[k])
    {
      CodeOfMember(xs, ys[k]);
    }
  }

  lemma CodeOfMember(xs: seq<int>, y: int)
    requires AllScalarCodes(xs)
    requires y in xs
    ensures IsScalarCode(65 + y)
  {
  }

  /** The letters do not depend on the order of the indices. */
  lemma FormatIgnoresOrder(xs: seq<int>, ys: seq<int>)
    requires AllScalarCodes(xs) && AllScalarCodes(ys)
    requires multiset(xs) == multiset(ys)
    ensures FormatIndicesAsLetters(xs) == FormatIndicesAsLetters(ys)
  {
    SortIgnoresOrder(xs, ys);
    if xs == [] {
      assert |ys| == |multiset(ys)| == 0;
    } else {
      assert ys != [] by {
        assert |ys| == |multiset(xs)| == |xs|;
      }
    }
  }

  /** `[2, 0]` is shown as "A, C". */
  lemma FormatExample()
    ensures FormatIndicesAsLetters([2, 0]) == "A, C"
  {
    SortTwoZero();
    LettersZeroTwo();
  }

  lemma SortTwoZero()
    ensures Sort([2, 0]) == [0, 2]
  {
    SortedCons(0, [2]);
    SortedUnique(Sort([2, 0]), [0, 2]);
  }

  lemma LettersZeroTwo()
    ensures JoinLetters(Letters([0, 2])) == "A, C"
  {
    var cs := Letters([0, 2]);
    assert cs[0] == 'A' && cs[1] == 'C';
    assert cs[..1] == ['A'];
  }
}
