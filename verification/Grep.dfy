// The pattern matcher of grep.c, after Kernighan and Pike, chapter 9 of The Practice of
// Programming.  Strings are without their terminating NUL.
module Grep {

  /** What a pattern is made of; '.' stands for any character in One and Many. */
  datatype Item = One(c: char) | Many(c: char) | End

  function Items(re: string): seq<Item> {
    if re == "" then []
    else if |re| >= 2 && re[1] == '*' then [Many(re[0])] + Items(re[2..])
    else if re == "$" then [End]
    else [One(re[0])] + Items(re[1..])
  }

  predicate Same(c: char, x: char) {
    c == '.' || c == x
  }

  predicate Run(c: char, s: string) {
    forall i :: 0 <= i < |s| ==> Same(c, s[i])
  }

  ghost predicate Fits(item: Item, s: string, rest: string) {
    match item
    case One(c) => |s| == 1 && Same(c, s[0])
    case Many(c) => Run(c, s)
    case End => s == "" && rest == ""
  }

  /** Text read as consecutive pieces of the given lengths, one per item, from pos on. */
  ghost predicate Reads(items: seq<Item>, ns: seq<nat>, text: string) {
    if items == [] then ns == []
    else ns != [] && ns[0] <= |text| && Fits(items[0], text[..ns[0]], text[ns[0]..])
         && Reads(items[1..], ns[1..], text[ns[0]..])
  }

  /** Some beginning of the text can be cut into pieces that fit the pattern. */
  ghost predicate MatchesHere(re: string, text: string) {
    exists ns :: Reads(Items(re), ns, text)
  }

  /** The pattern matches at some place of the text, or at its start after '^'. */
  ghost predicate Matches(re: string, text: string) {
    if re != "" && re[0] == '^' then MatchesHere(re[1..], text)
    else exists i :: 0 <= i <= |text| && MatchesHere(re, text[i..])
  }

  /** Star: some run of the character, then the rest of the pattern. */
  ghost predicate MatchesStar(c: char, re: string, text: string) {
    exists k :: 0 <= k <= |text| && Run(c, text[..k]) && MatchesHere(re, text[k..])
  }

  // ----- Unfolding the meaning by the head of the pattern -----

  lemma HereEmpty(text: string)
    ensures MatchesHere("", text)
  {
    assert Reads(Items(""), [], text);
  }

  lemma HereEnd(text: string)
    ensures MatchesHere("$", text) <==> text == ""
  {
    assert Items("$") == [End];
    if text == "" {
      assert Reads([End], [0], text);
    }
    forall ns | Reads([End], ns, text) ensures text == "" {
    }
  }

  lemma HereStar(re: string, text: string)
    requires |re| >= 2 && re[1] == '*'
    ensures MatchesHere(re, text) <==> MatchesStar(re[0], re[2..], text)
  {
    var items, rest := Items(re), Items(re[2..]);
    assert items[0] == Many(re[0]) && items[1..] == rest;
    if MatchesHere(re, text) {
      var ns :| Reads(items, ns, text);
      assert Reads(rest, ns[1..], text[ns[0]..]);
      assert Run(re[0], text[..ns[0]]) && MatchesHere(re[2..], text[ns[0]..]);
    }
    if MatchesStar(re[0], re[2..], text) {
      var k: nat :| k <= |text| && Run(re[0], text[..k]) && MatchesHere(re[2..], text[k..]);
      var ns :| Reads(rest, ns, text[k..]);
      assert ([k] + ns)[1..] == ns;
      assert Reads(items, [k] + ns, text);
    }
  }

  lemma HereOne(re: string, text: string)
    requires re != "" && !(|re| >= 2 && re[1] == '*') && re != "$"
    ensures MatchesHere(re, text) <==> text != "" && Same(re[0], text[0]) && MatchesHere(re[1..], text[1..])
  {
    var items, rest := Items(re), Items(re[1..]);
    assert items[0] == One(re[0]) && items[1..] == rest;
    if MatchesHere(re, text) {
      var ns :| Reads(items, ns, text);
      assert ns[0] == 1;
      assert Reads(rest, ns[1..], text[1..]);
    }
    if text != "" && Same(re[0], text[0]) && MatchesHere(re[1..], text[1..]) {
      var ns :| Reads(rest, ns, text[1..]);
      assert ([1] + ns)[1..] == ns;
      assert Reads(items, [1] + ns, text);
    }
  }

  // ----- The matcher -----

  method Match(re: string, text: string) returns (r: bool)
    ensures r <==> Matches(re, text)
  {
    if re != "" && re[0] == '^' {
      r := Matchhere(re[1..], text);
      return;
    }
    var t := 0;
    while true
      invariant 0 <= t <= |text|
      invariant forall i :: 0 <= i < t ==> !MatchesHere(re, text[i..])
      decreases |text| - t
    {
      r := Matchhere(re, text[t..]);
      if r {
        return true;
      }
      if t == |text| {
        return false;
      }
      t := t + 1;
    }
  }

  method Matchhere(re: string, text: string) returns (r: bool)
    ensures r <==> MatchesHere(re, text)
    decreases |re|, |text|, 0
  {
    if re == "" {
      HereEmpty(text);
      return true;
    }
    if |re| >= 2 && re[1] == '*' {
      HereStar(re, text);
      r := Matchstar(re[0], re[2..], text);
      return;
    }
    if re == "$" {
      HereEnd(text);
      return text == "";
    }
    HereOne(re, text);
    if text != "" && (re[0] == '.' || re[0] == text[0]) {
      r := Matchhere(re[1..], text[1..]);
      return;
    }
    return false;
  }

  method Matchstar(c: char, re: string, text: string) returns (r: bool)
    ensures r <==> MatchesStar(c, re, text)
    decreases |re|, |text|, 1
  {
    var t := 0;
    while true
      invariant 0 <= t <= |text| && Run(c, text[..t])
      invariant forall k :: 0 <= k < t ==> !MatchesHere(re, text[k..])
      decreases |text| - t
    {
      r := Matchhere(re, text[t..]);
      if r {
        return true;
      }
      if !(t < |text| && (text[t] == c || c == '.')) {
        forall k | t < k <= |text| ensures !Run(c, text[..k]) {
          assert text[..k][t] == text[t];
        }
        return false;
      }
      t := t + 1;
    }
  }
}
