/** The string helpers of the database layer: C-locale lower-casing, the
    `std::getline`-driven split, left trimming, and the split that
    normalises keyword labels. */
module DbUtils {
  import opened Text

  /** `std::isupper` in the C locale. */
  predicate IsUpper(c: char) {
    'A' <= c <= 'Z'
  }

  /** `std::isspace` in the C locale: space, tab, line feed, vertical tab,
      form feed and carriage return. */
  predicate IsSpace(c: char) {
    c == ' ' || 9 <= c as int <= 13
  }

  predicate NoUpper(s: string) {
    forall j :: 0 <= j < |s| ==> !IsUpper(s[j])
  }

  /** `std::tolower` in the C locale. */
  function LowerChar(c: char): char {
    if IsUpper(c) then (c as int + 32) as char else c
  }

  /** `toLower`: every character goes through `std::tolower`. */
  function ToLower(s: string): (r: string)
    ensures |r| == |s|
    ensures forall i :: 0 <= i < |s| ==> r[i] == LowerChar(s[i])
  {
    seq(|s|, i requires 0 <= i < |s| => LowerChar(s[i]))
  }

  lemma ToLowerNoUpper(s: string)
    ensures NoUpper(ToLower(s))
  {
  }

  /** Only upper-case letters change, each into its lower-case letter. */
  lemma ToLowerChanges(s: string)
    ensures forall i :: 0 <= i < |s| && !IsUpper(s[i]) ==> ToLower(s)[i] == s[i]
    ensures forall i :: 0 <= i < |s| && IsUpper(s[i]) ==>
      'a' <= ToLower(s)[i] <= 'z' && ToLower(s)[i] as int == s[i] as int + 32
  {
  }

  lemma ToLowerIdempotent(s: string)
    ensures ToLower(ToLower(s)) == ToLower(s)
  {
  }

  /** Lower-casing works character by character, so it distributes over `+`
      and commutes with taking a slice. */
  lemma ToLowerAppend(a: string, b: string)
    ensures ToLower(a + b) == ToLower(a) + ToLower(b)
  {
  }

  lemma ToLowerSlice(s: string, i: nat, j: nat)
    requires i <= j <= |s|
    ensures ToLower(s)[i..j] == ToLower(s[i..j])
  {
    var lower, sliced := ToLower(s)[i..j], ToLower(s[i..j]);
    forall k | 0 <= k < j - i
      ensures lower[k] == sliced[k]
    {
      assert lower[k] == LowerChar(s[i + k]);
    }
  }

  /** Position of the first `d` in `s`, or `|s|` when `s` holds none: where
      `std::getline` stops reading. */
  function FirstIndexOf(s: string, d: char): (i: nat)
    ensures i <= |s|
    ensures i < |s| ==> s[i] == d
    ensures forall j :: 0 <= j < i ==> s[j] != d
  {
    if s == [] then 0
    else if s[0] == d then 0
    else 1 + FirstIndexOf(s[1..], d)
  }

  /** `split`: the tokens that repeated `std::getline(ss, token, d)` yields.
      Every call reads up to the next delimiter and consumes it; the loop
      stops only when a call finds the stream already exhausted, so a final
      delimiter does not produce a final empty token. */
  function Split(s: string, d: char): (tokens: seq<string>)
    ensures s == [] <==> tokens == []
    decreases |s|
  {
    if s == [] then []
    else
      var i := FirstIndexOf(s, d);
      if i == |s| then [s] else [s[..i]] + Split(s[i + 1..], d)
  }

  /** A text holding `d` is a first token free of `d`, the delimiter, and
      the rest. */
  lemma Cut(s: string, d: char) returns (head: string, rest: string)
    requires d in s
    ensures s == head + [d] + rest && d !in head
  {
    var i := FirstIndexOf(s, d);
    head, rest := s[..i], s[i + 1..];
  }

  lemma {:induction false} FirstIndexOfCut(head: string, d: char, rest: string)
    requires d !in head
    ensures FirstIndexOf(head + [d] + rest, d) == |head|
    decreases |head|
  {
    if head != [] {
      assert (head + [d] + rest)[1..] == head[1..] + [d] + rest;
      FirstIndexOfCut(head[1..], d, rest);
    }
  }

  /** One `std::getline` step: the token up to the first delimiter, which is
      consumed, then the tokens of the rest. */
  lemma SplitCut(head: string, d: char, rest: string)
    requires d !in head
    ensures Split(head + [d] + rest, d) == [head] + Split(rest, d)
  {
    var s := head + [d] + rest;
    FirstIndexOfCut(head, d, rest);
    assert s[..|head|] == head;
    assert s[|head| + 1..] == rest;
  }

  /** The last step: a non-empty text without the delimiter is one token. */
  lemma SplitLast(s: string, d: char)
    requires s != [] && d !in s
    ensures Split(s, d) == [s]
  {
  }

  /** No token holds the delimiter. */
  lemma {:induction false} SplitNoDelimiter(s: string, d: char)
    ensures forall k :: 0 <= k < |Split(s, d)| ==> d !in Split(s, d)[k]
    decreases |s|
  {
    if d in s {
      var head, rest := Cut(s, d);
      SplitCut(head, d, rest);
      SplitNoDelimiter(rest, d);
    } else if s != [] {
      SplitLast(s, d);
    }
  }

  /** Re-joining the tokens with the delimiter gives the input back, except
      for the one delimiter that ends the input, if there is one. */
  predicate Rejoins(s: string, d: char)
  {
    && (s == [] || s[|s| - 1] != d ==> Join(Split(s, d), [d]) == s)
    && (s != [] && s[|s| - 1] == d ==> Join(Split(s, d), [d]) + [d] == s)
  }

  lemma {:induction false} SplitRejoin(s: string, d: char)
    ensures s == [] || s[|s| - 1] != d ==> Join(Split(s, d), [d]) == s
    ensures s != [] && s[|s| - 1] == d ==> Join(Split(s, d), [d]) + [d] == s
    decreases |s|
  {
    if d in s {
      var head, rest := Cut(s, d);
      SplitRejoin(rest, d);
      RejoinCut(head, d, rest);
    } else if s != [] {
      SplitLast(s, d);
    }
  }

  lemma RejoinCut(head: string, d: char, rest: string)
    requires d !in head && Rejoins(rest, d)
    ensures Rejoins(head + [d] + rest, d)
  {
    var s := head + [d] + rest;
    var joined := Join(Split(s, d), [d]);
    SplitCut(head, d, rest);
    if rest == [] {
      assert joined == head;
    } else {
      var tail := Join(Split(rest, d), [d]);
      JoinCons(head, Split(rest, d), [d]);
      assert joined == head + [d] + tail;
      assert s[|s| - 1] == rest[|rest| - 1];
      if rest[|rest| - 1] == d {
        assert joined + [d] == head + [d] + (tail + [d]);
      }
    }
  }

  /** Occurrences of `d` on both sides of one more `d`. */
  lemma CountAround(head: string, d: char, rest: string)
    requires d !in head
    ensures multiset(head + [d] + rest)[d] == 1 + multiset(rest)[d]
  {
    assert multiset(head + [d] + rest) == multiset(head) + multiset([d]) + multiset(rest);
  }

  /** Whether a text ends in something other than `d`. */
  function EndsOff(s: string, d: char): nat
  {
    if s != [] && s[|s| - 1] != d then 1 else 0
  }

  lemma EndsOffCut(head: string, d: char, rest: string)
    ensures EndsOff(head + [d] + rest, d) == EndsOff(rest, d)
  {
    if rest != [] {
      var s := head + [d] + rest;
      assert s[|s| - 1] == rest[|rest| - 1];
    }
  }

  /** One token per delimiter, plus one for the text after the last
      delimiter when that text is not empty. */
  lemma {:induction false} SplitCount(s: string, d: char)
    ensures |Split(s, d)| == multiset(s)[d] + (if s != [] && s[|s| - 1] != d then 1 else 0)
    decreases |s|
  {
    if d in s {
      var head, rest := Cut(s, d);
      SplitCut(head, d, rest);
      CountAround(head, d, rest);
      EndsOffCut(head, d, rest);
      SplitCount(rest, d);
      assert EndsOff(s, d) == EndsOff(rest, d);
    } else {
      assert multiset(s)[d] == 0;
      if s != [] {
        SplitLast(s, d);
      }
    }
  }

  /** Splitting a join recovers the parts, provided no part holds the
      delimiter and the last part is not empty. */
  lemma {:induction false} JoinSplit(parts: seq<string>, d: char)
    requires forall k :: 0 <= k < |parts| ==> d !in parts[k]
    requires parts == [] || parts[|parts| - 1] != []
    ensures Split(Join(parts, [d]), d) == parts
    decreases |parts|
  {
    if |parts| == 1 {
      SplitLast(parts[0], d);
    } else if |parts| > 1 {
      assert d !in parts[0];
      SplitCut(parts[0], d, Join(parts[1..], [d]));
      JoinSplit(parts[1..], d);
    }
  }

  /** Where `removeLeading`'s scan stops: the length of the leading run of
      whitespace. */
  function LeadingSpaces(s: string): (start: nat)
    ensures start <= |s|
    ensures forall j :: 0 <= j < start ==> IsSpace(s[j])
    ensures start < |s| ==> !IsSpace(s[start])
  {
    if s != [] && IsSpace(s[0]) then 1 + LeadingSpaces(s[1..]) else 0
  }

  /** `removeLeading`: drops the leading whitespace and keeps the rest. */
  function RemoveLeading(s: string): (r: string)
    ensures |r| <= |s| && r == s[|s| - |r|..]
    ensures forall i :: 0 <= i < |s| - |r| ==> IsSpace(s[i])
    ensures r == [] || !IsSpace(r[0])
  {
    s[LeadingSpaces(s)..]
  }

  lemma RemoveLeadingIdempotent(s: string)
    ensures RemoveLeading(RemoveLeading(s)) == RemoveLeading(s)
  {
  }

  /** A suffix of a text without upper-case letters has none either. */
  lemma NoUpperSuffix(s: string, k: nat)
    requires k <= |s| && NoUpper(s)
    ensures NoUpper(s[k..])
  {
    forall j | 0 <= j < |s[k..]|
      ensures !IsUpper(s[k..][j])
    {
      assert s[k..][j] == s[k + j];
    }
  }

  /** The label normalisation applied to every keyword token. */
  function NormalizeLabel(token: string): (norm: string)
    ensures NoUpper(norm)
    ensures norm == [] || !IsSpace(norm[0])
    ensures |norm| <= |token|
  {
    var lower := ToLower(token);
    ToLowerNoUpper(token);
    var trimmed := RemoveLeading(lower);
    NoUpperSuffix(lower, |lower| - |trimmed|);
    trimmed
  }

  /** `splitFix`: the same `std::getline` loop as `Split`, pushing each token
      lower-cased and stripped of leading whitespace. */
  function SplitFix(s: string, d: char): (labels: seq<string>)
    ensures s == [] <==> labels == []
    decreases |s|
  {
    if s == [] then []
    else
      var i := FirstIndexOf(s, d);
      if i == |s| then [NormalizeLabel(s)]
      else [NormalizeLabel(s[..i])] + SplitFix(s[i + 1..], d)
  }

  lemma SplitFixCut(head: string, d: char, rest: string)
    requires d !in head
    ensures SplitFix(head + [d] + rest, d) == [NormalizeLabel(head)] + SplitFix(rest, d)
  {
    var s := head + [d] + rest;
    FirstIndexOfCut(head, d, rest);
    assert s[..|head|] == head;
    assert s[|head| + 1..] == rest;
  }

  /** `splitFix` yields exactly the tokens of `split`, each normalised. */
  lemma {:induction false} SplitFixIsNormalizedSplit(s: string, d: char)
    ensures |SplitFix(s, d)| == |Split(s, d)|
    ensures forall k :: 0 <= k < |Split(s, d)| ==>
      SplitFix(s, d)[k] == RemoveLeading(ToLower(Split(s, d)[k]))
    decreases |s|
  {
    if d in s {
      var head, rest := Cut(s, d);
      SplitCut(head, d, rest);
      SplitFixCut(head, d, rest);
      SplitFixIsNormalizedSplit(rest, d);
      var fix, tokens := SplitFix(s, d), Split(s, d);
      forall k | 0 <= k < |tokens|
        ensures fix[k] == RemoveLeading(ToLower(tokens[k]))
      {
        if k > 0 {
          assert fix[k] == SplitFix(rest, d)[k - 1];
          assert tokens[k] == Split(rest, d)[k - 1];
        }
      }
    } else if s != [] {
      SplitLast(s, d);
    }
  }

  /** Labels free of upper-case letters and of leading whitespace. */
  predicate Normalized(labels: seq<string>)
  {
    forall k :: 0 <= k < |labels| ==> NoUpper(labels[k]) && (labels[k] == [] || !IsSpace(labels[k][0]))
  }

  lemma SplitFixLabels(s: string, d: char)
    ensures Normalized(SplitFix(s, d))
  {
    SplitFixIsNormalizedSplit(s, d);
    forall k | 0 <= k < |SplitFix(s, d)|
      ensures NoUpper(SplitFix(s, d)[k])
    {
      var norm := NormalizeLabel(Split(s, d)[k]);
    }
  }
}
