/** The regular expression matcher of grep.c. A C string is the sequence of its characters before the
    terminating NUL; a pointer into the text is an index. */
module Regexp {
  datatype Item = Lit(c: char) | Any | Star(c: char) | End

  /** Characters other than NUL. */
  ghost predicate CString(s: string) {
    forall k :: 0 <= k < |s| ==> s[k] != '\0'
  }

  /** The character at s + k. */
  function At(s: string, k: nat): char {
    if k < |s| then s[k] else '\0'
  }

  // ----- what a pattern means -----

  /** The items of a pattern without its leading ^. A character before * is starred, whatever it is; $ is
      special at the end only. */
  function Items(re: string): seq<Item> {
    if re == "" then []
    else if |re| >= 2 && re[1] == '*' then [Star(re[0])] + Items(re[2..])
    else [if re == "$" then End else if re[0] == '.' then Any else Lit(re[0])] + Items(re[1..])
  }

  /** How an item is written. */
  function Written(item: Item): string {
    match item
    case Lit(c) => [c]
    case Any => "."
    case Star(c) => [c, '*']
    case End => "$"
  }

  function AllWritten(items: seq<Item>): string {
    if items == [] then "" else Written(items[0]) + AllWritten(items[1..])
  }

  /** Item k is read as it must be: a star belongs to the character before it, a dot is no literal, and a dollar is one
      exactly if something follows. */
  predicate ReadRight(items: seq<Item>, k: nat)
    requires k < |items|
  {
    match items[k]
    case Star(_) => true
    case Lit(c) => c != '.' && (c == '$' ==> k + 1 < |items|) && (k + 1 < |items| ==> Written(items[k + 1])[0] != '*')
    case Any => k + 1 < |items| ==> Written(items[k + 1])[0] != '*'
    case End => k + 1 == |items|
  }

  lemma {:induction false} WrittenStart(items: seq<Item>)
    ensures items == [] <==> AllWritten(items) == ""
    ensures items != [] ==> AllWritten(items)[0] == Written(items[0])[0]
  {
  }

  /** There is one right way to read a pattern, and Items is it. */
  lemma {:induction false} OneReading(re: string, items: seq<Item>)
    ensures items == Items(re) <==>
      AllWritten(items) == re && forall k :: 0 <= k < |items| ==> ReadRight(items, k)
  {
    ItemsRead(re);
    if AllWritten(items) == re && forall k :: 0 <= k < |items| ==> ReadRight(items, k) {
      SameReading(re, items);
    }
  }

  lemma {:induction false} ItemsRead(re: string)
    ensures AllWritten(Items(re)) == re && forall k :: 0 <= k < |Items(re)| ==> ReadRight(Items(re), k)
  {
    var items := Items(re);
    if re != "" {
      var rest := if |re| >= 2 && re[1] == '*' then re[2..] else re[1..];
      ItemsRead(rest);
      assert items[1..] == Items(rest);
      WrittenStart(Items(rest));
      assert AllWritten(items) == Written(items[0]) + rest;
      forall k | 0 <= k < |items| ensures ReadRight(items, k) {
        if k > 0 {
          assert ReadRight(Items(rest), k - 1);
        }
      }
    }
  }

  lemma {:induction false} SameReading(re: string, items: seq<Item>)
    requires AllWritten(items) == re && forall k :: 0 <= k < |items| ==> ReadRight(items, k)
    ensures items == Items(re)
    decreases |items|
  {
    if items != [] {
      var rest := items[1..];
      var w := Written(items[0]);
      assert re == w + AllWritten(rest) && re[|w|..] == AllWritten(rest);
      assert ReadRight(items, 0);
      WrittenStart(rest);
      forall k | 0 <= k < |rest| ensures ReadRight(rest, k) {
        assert ReadRight(items, k + 1);
      }
      SameReading(AllWritten(rest), rest);
      assert items == [items[0]] + rest;
    }
  }

  /** The item matches the text from a to b - 1. */
  ghost predicate Accepts(item: Item, text: string, a: int, b: int)
    requires 0 <= a <= b <= |text|
  {
    match item
    case Lit(c) => b == a + 1 && text[a] == c
    case Any => b == a + 1
    case Star(c) => forall k :: a <= k < b ==> text[k] == c || c == '.'
    case End => a == b == |text|
  }

  /** Item k gets the text between two cuts. */
  ghost predicate Piece(items: seq<Item>, text: string, cut: seq<int>, k: int)
    requires 0 <= k < |items| && |cut| == |items| + 1
  {
    0 <= cut[k] <= cut[k + 1] <= |text| && Accepts(items[k], text, cut[k], cut[k + 1])
  }

  /** cut splits a stretch of the text that begins at a into one piece for each item. */
  ghost predicate Split(items: seq<Item>, text: string, a: int, cut: seq<int>) {
    && |cut| == |items| + 1 && cut[0] == a
    && forall k :: 0 <= k < |items| ==> Piece(items, text, cut, k)
  }

  /** The pattern matches somewhere, or at the start if it begins with ^. */
  ghost predicate Matches(re: string, text: string) {
    if At(re, 0) == '^' then exists cut :: Split(Items(re[1..]), text, 0, cut)
    else exists a, cut :: 0 <= a <= |text| && Split(Items(re), text, a, cut)
  }

  // ----- the same, one item at a time -----

  /** A piece of text at a for the first item, and the rest of the items behind it. */
  ghost predicate Here(items: seq<Item>, text: string, a: int)
    requires 0 <= a <= |text|
    decreases |items|
  {
    || items == []
    || exists b {:trigger Accepts(items[0], text, a, b)} ::
        a <= b <= |text| && Accepts(items[0], text, a, b) && Here(items[1..], text, b)
  }

  lemma {:induction false} FirstPiece(items: seq<Item>, text: string, a: int) returns (b: int)
    requires 0 <= a <= |text| && items != [] && Here(items, text, a)
    ensures a <= b <= |text| && Accepts(items[0], text, a, b) && Here(items[1..], text, b)
  {
    b :| a <= b <= |text| && Accepts(items[0], text, a, b) && Here(items[1..], text, b);
  }

  lemma {:induction false} HereSplits(items: seq<Item>, text: string, a: int) returns (cut: seq<int>)
    requires 0 <= a <= |text| && Here(items, text, a)
    ensures Split(items, text, a, cut)
    decreases |items|
  {
    if items == [] {
      cut := [a];
    } else {
      var b := FirstPiece(items, text, a);
      var rest := HereSplits(items[1..], text, b);
      cut := [a] + rest;
      forall k | 0 <= k < |items| ensures Piece(items, text, cut, k) {
        assert k > 0 ==> Piece(items[1..], text, rest, k - 1);
      }
    }
  }

  lemma {:induction false} SplitIsHere(items: seq<Item>, text: string, a: int, cut: seq<int>)
    requires 0 <= a <= |text| && Split(items, text, a, cut)
    ensures Here(items, text, a)
    decreases |items|
  {
    if items != [] {
      assert Piece(items, text, cut, 0);
      forall k | 0 <= k < |items| - 1 ensures Piece(items[1..], text, cut[1..], k) {
        assert Piece(items, text, cut, k + 1);
      }
      SplitIsHere(items[1..], text, cut[1], cut[1..]);
      assert Accepts(items[0], text, a, cut[1]);
    }
  }

  // ----- the matcher -----

  /** A piece for Star(c) can stop here, or take one more character. */
  lemma {:induction false} StarStep(c: char, items: seq<Item>, text: string, a: int)
    requires 0 <= a <= |text|
    ensures Here([Star(c)] + items, text, a) <==>
      Here(items, text, a) || (a < |text| && (text[a] == c || c == '.') && Here([Star(c)] + items, text, a + 1))
  {
    var all := [Star(c)] + items;
    assert all[1..] == items && all[0] == Star(c);
    if Here(items, text, a) {
      assert Accepts(all[0], text, a, a);
    }
    if a < |text| && (text[a] == c || c == '.') && Here(all, text, a + 1) {
      var b := FirstPiece(all, text, a + 1);
      assert Accepts(all[0], text, a, b);
    }
    if Here(all, text, a) && !Here(items, text, a) {
      var b := FirstPiece(all, text, a);
      assert a < b && (text[a] == c || c == '.');
      assert Accepts(all[0], text, a + 1, b);
    }
  }

  /** Items that take exactly one character, or the end. */
  lemma {:induction false} FirstItem(re: string, text: string, a: int)
    requires 0 <= a <= |text| && CString(re) && CString(text) && re != "" && At(re, 1) != '*'
    ensures Here(Items(re), text, a) <==>
      if re == "$" then
        a == |text|
      else
        a < |text| && (re[0] == '.' || re[0] == text[a]) && Here(Items(re[1..]), text, a + 1)
  {
    var items := Items(re);
    assert items[1..] == Items(re[1..]);
    if re == "$" {
      assert Items(re[1..]) == [];
      assert a == |text| ==> Accepts(items[0], text, a, a);
    } else if a < |text| {
      assert Accepts(items[0], text, a, a + 1) <==> re[0] == '.' || re[0] == text[a];
    }
  }

  method MatchHere(re: string, text: string, a: nat) returns (r: bool)
    requires CString(re) && CString(text) && a <= |text|
    ensures r <==> Here(Items(re), text, a)
    decreases |re|, 0
  {
    if At(re, 0) == '\0' {
      return true;
    }
    if At(re, 1) == '*' {
      r := MatchStar(re[0], re[2..], text, a);
      return;
    }
    FirstItem(re, text, a);
    if re[0] == '$' && At(re, 1) == '\0' {
      return At(text, a) == '\0';
    }
    if At(text, a) != '\0' && (re[0] == '.' || re[0] == At(text, a)) {
      r := MatchHere(re[1..], text, a + 1);
      return;
    }
    r := false;
  }

  method MatchStar(c: char, re: string, text: string, a: nat) returns (r: bool)
    requires CString(re) && CString(text) && a <= |text|
    ensures r <==> Here([Star(c)] + Items(re), text, a)
    decreases |re|, 1
  {
    var k := a;
    while true
      invariant a <= k <= |text|
      invariant Here([Star(c)] + Items(re), text, a) <==> Here([Star(c)] + Items(re), text, k)
      decreases |text| - k
    {
      StarStep(c, Items(re), text, k);
      var here := MatchHere(re, text, k);
      if here {
        return true;
      }
      if At(text, k) == '\0' || !(At(text, k) == c || c == '.') {
        return false;
      }
      k := k + 1;
    }
  }

  /** match answers 1 exactly when the pattern matches. */
  method Match(re: string, text: string) returns (r: bool)
    requires CString(re) && CString(text)
    ensures r <==> Matches(re, text)
  {
    if At(re, 0) == '^' {
      r := MatchHere(re[1..], text, 0);
      HereOrNot(Items(re[1..]), text, 0);
      return;
    }
    var a := 0;
    while true
      invariant 0 <= a <= |text|
      invariant forall b, cut :: 0 <= b < a ==> !Split(Items(re), text, b, cut)
      decreases |text| - a
    {
      r := MatchHere(re, text, a);
      HereOrNot(Items(re), text, a);
      if r {
        return;
      }
      if At(text, a) == '\0' {
        return;
      }
      a := a + 1;
    }
  }

  lemma {:induction false} HereOrNot(items: seq<Item>, text: string, a: int)
    requires 0 <= a <= |text|
    ensures Here(items, text, a) <==> exists cut :: Split(items, text, a, cut)
  {
    if Here(items, text, a) {
      var cut := HereSplits(items, text, a);
    }
    forall cut | Split(items, text, a, cut) ensures Here(items, text, a) {
      SplitIsHere(items, text, a, cut);
    }
  }
}
