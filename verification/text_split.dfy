/**
 * Splitting and joining text on a single-character separator, as Guava's
 * `Splitter.on(c)` and `Joiner.on(c)` do (every piece kept, empty ones
 * included), and as Java's `String.split` does for a one-character
 * pattern (trailing empty pieces removed).
 */
module TextSplit {

  /** Guava `Splitter.on(d).split(s)`: the pieces between separators, in order, none dropped. */
  function Split(s: string, d: char): (pieces: seq<string>)
    ensures |pieces| == multiset(s)[d] + 1
    ensures forall i | 0 <= i < |pieces| :: d !in pieces[i]
    decreases |s|
  {
    if |s| == 0 then [""]
    else
      var rest := Split(s[1..], d);
      assert s == [s[0]] + s[1..];
      if s[0] == d then [""] + rest
      else [[s[0]] + rest[0]] + rest[1..]
  }

  /** Guava `Joiner.on(d).join(parts)`: the parts with one separator between neighbours. */
  function Join(parts: seq<string>, d: char): string
    decreases |parts|
  {
    if |parts| == 0 then ""
    else if |parts| == 1 then parts[0]
    else parts[0] + [d] + Join(parts[1..], d)
  }

  /** Guava's `Splitter.on(d).split(s).iterator().next()`: the text before the first separator. */
  function FirstField(s: string, d: char): (f: string)
    ensures f <= s
    ensures d !in f
    ensures |f| == |s| || s[|f|] == d
    decreases |s|
  {
    if |s| == 0 || s[0] == d then "" else [s[0]] + FirstField(s[1..], d)
  }

  /** Removes the empty pieces at the end, as `String.split` with limit zero does. */
  function DropTrailingEmpty(pieces: seq<string>): (r: seq<string>)
    ensures r <= pieces
    ensures |r| == 0 || r[|r| - 1] != ""
    ensures forall i | |r| <= i < |pieces| :: pieces[i] == ""
    decreases |pieces|
  {
    if |pieces| == 0 || pieces[|pieces| - 1] != "" then pieces
    else DropTrailingEmpty(pieces[..|pieces| - 1])
  }

  /**
   * Java `s.split(String.valueOf(d))` for a separator that is not a
   * regular-expression metacharacter: the Guava pieces up to the last
   * non-empty one. A text without the separator is its own single piece,
   * even when it is empty.
   */
  function JavaSplit(s: string, d: char): (pieces: seq<string>)
    ensures pieces <= Split(s, d)
    ensures forall i | |pieces| <= i < |Split(s, d)| :: Split(s, d)[i] == ""
    ensures d in s ==> |pieces| == 0 || pieces[|pieces| - 1] != ""
    ensures d !in s ==> pieces == [s]
  {
    if d !in s then SplitWithoutSeparator(s, d); [s] else DropTrailingEmpty(Split(s, d))
  }

  // ---------------------------------------------------------------------
  // Lemmas
  // ---------------------------------------------------------------------

  /**
   * A join starts with its first part, followed by a separator when more
   * parts come; when no part holds the separator, the text has exactly one
   * separator fewer than there are parts.
   */
  lemma {:induction false} JoinSeparators(parts: seq<string>, d: char)
    requires |parts| >= 1
    ensures parts[0] <= Join(parts, d)
    ensures |parts| >= 2 ==> |Join(parts, d)| > |parts[0]| && Join(parts, d)[|parts[0]|] == d
    ensures (forall i | 0 <= i < |parts| :: d !in parts[i]) ==> multiset(Join(parts, d))[d] == |parts| - 1
    decreases |parts|
  {
    if |parts| >= 2 {
      JoinSeparators(parts[1..], d);
      var j := Join(parts, d);
      assert j == parts[0] + [d] + Join(parts[1..], d);
      assert j[..|parts[0]|] == parts[0];
    }
  }

  lemma JoinCons(first: string, rest: seq<string>, d: char)
    requires |rest| >= 1
    ensures Join([first] + rest, d) == first + [d] + Join(rest, d)
  {
    assert ([first] + rest)[1..] == rest;
  }

  lemma {:induction false} SplitWithoutSeparator(s: string, d: char)
    requires d !in s
    ensures Split(s, d) == [s]
    decreases |s|
  {
    if |s| > 0 {
      SplitWithoutSeparator(s[1..], d);
      assert [s[0]] + s[1..] == s;
    }
  }

  /** Splitting distributes over a separator placed between two texts. */
  lemma {:induction false} SplitAround(x: string, d: char, y: string)
    ensures Split(x + [d] + y, d) == Split(x, d) + Split(y, d)
    decreases |x|
  {
    if |x| == 0 {
      assert x + [d] + y == [d] + y;
      SplitAtSeparator(y, d);
    } else {
      var c, t := x[0], x[1..];
      SplitAround(t, d, y);
      assert x == [c] + t;
      if c == d {
        SplitAroundSeparator(t, d, y);
      } else {
        SplitAroundOther(c, t, d, y);
      }
    }
  }

  /** The step of `SplitAround` for a text that starts with the separator. */
  lemma SplitAroundSeparator(t: string, d: char, y: string)
    requires Split(t + [d] + y, d) == Split(t, d) + Split(y, d)
    ensures Split([d] + t + [d] + y, d) == Split([d] + t, d) + Split(y, d)
  {
    var u := t + [d] + y;
    ConsAssoc(d, t, [d]);
    ConsAssoc(d, t + [d], y);
    SplitAtSeparator(u, d);
    SplitAtSeparator(t, d);
    ConsAssoc("", Split(t, d), Split(y, d));
  }

  /** The step of `SplitAround` for a text that starts with another character. */
  lemma SplitAroundOther(c: char, t: string, d: char, y: string)
    requires c != d
    requires Split(t + [d] + y, d) == Split(t, d) + Split(y, d)
    ensures Split([c] + t + [d] + y, d) == Split([c] + t, d) + Split(y, d)
  {
    var u := t + [d] + y;
    ConsAssoc(c, t, [d]);
    ConsAssoc(c, t + [d], y);
    SplitAtOther(c, u, d);
    SplitAtOther(c, t, d);
    HeadGrowsLeft([c] + Split(t, d)[0], Split(t, d), Split(y, d));
  }

  lemma ConsAssoc<T>(h: T, a: seq<T>, b: seq<T>)
    ensures [h] + (a + b) == ([h] + a) + b
  {
  }

  /** Replacing the head of `a + b` by `h` is replacing the head of `a`, when `a` is not empty. */
  lemma HeadGrowsLeft<T>(h: T, a: seq<T>, b: seq<T>)
    requires |a| >= 1
    ensures (a + b)[0] == a[0]
    ensures [h] + (a + b)[1..] == ([h] + a[1..]) + b
  {
    assert (a + b)[1..] == a[1..] + b;
  }

  /** A leading separator ends an empty first piece. */
  lemma SplitAtSeparator(t: string, d: char)
    ensures Split([d] + t, d) == [""] + Split(t, d)
  {
    assert ([d] + t)[1..] == t;
  }

  /** Any other leading character joins the first piece. */
  lemma SplitAtOther(c: char, t: string, d: char)
    requires c != d
    ensures Split([c] + t, d) == [[c] + Split(t, d)[0]] + Split(t, d)[1..]
  {
    assert ([c] + t)[1..] == t;
  }

  /** Joining after an empty first piece puts a separator in front. */
  lemma JoinAfterEmpty(rest: seq<string>, d: char)
    requires |rest| >= 1
    ensures Join([""] + rest, d) == [d] + Join(rest, d)
  {
    JoinCons("", rest, d);
  }

  /** Growing the first piece by one character grows the join by that character in front. */
  lemma JoinGrowFirst(c: char, rest: seq<string>, d: char)
    requires |rest| >= 1
    ensures Join([[c] + rest[0]] + rest[1..], d) == [c] + Join(rest, d)
  {
    if |rest| > 1 {
      JoinCons([c] + rest[0], rest[1..], d);
      JoinCons(rest[0], rest[1..], d);
      assert rest == [rest[0]] + rest[1..];
    }
  }

  /** Joining the pieces of a split restores the text. */
  lemma {:induction false} JoinSplit(s: string, d: char)
    ensures Join(Split(s, d), d) == s
    decreases |s|
  {
    if |s| > 0 {
      var c, t := s[0], s[1..];
      assert s == [c] + t;
      JoinSplit(t, d);
      if c == d {
        SplitAtSeparator(t, d);
        JoinAfterEmpty(Split(t, d), d);
      } else {
        SplitAtOther(c, t, d);
        JoinGrowFirst(c, Split(t, d), d);
      }
    }
  }

  /** Splitting a join of separator-free parts gives the parts back. */
  lemma {:induction false} SplitJoin(parts: seq<string>, d: char)
    requires |parts| >= 1
    requires forall i | 0 <= i < |parts| :: d !in parts[i]
    ensures Split(Join(parts, d), d) == parts
    decreases |parts|
  {
    if |parts| == 1 {
      SplitWithoutSeparator(parts[0], d);
    } else {
      SplitJoin(parts[1..], d);
      SplitWithoutSeparator(parts[0], d);
      SplitAround(parts[0], d, Join(parts[1..], d));
      assert parts == [parts[0]] + parts[1..];
    }
  }

  /** The first piece of a split is the text before the first separator. */
  lemma {:induction false} FirstPieceIsFirstField(s: string, d: char)
    ensures Split(s, d)[0] == FirstField(s, d)
    decreases |s|
  {
    if |s| > 0 && s[0] != d {
      FirstPieceIsFirstField(s[1..], d);
    }
  }

  /**
   * Java's `String.split` agrees with the Guava split on every piece it
   * keeps, and it keeps every piece that is not empty.
   */
  lemma JavaSplitAgrees(s: string, d: char, i: nat)
    requires i < |Split(s, d)|
    ensures i < |JavaSplit(s, d)| ==> JavaSplit(s, d)[i] == Split(s, d)[i]
    ensures Split(s, d)[i] != "" ==> i < |JavaSplit(s, d)|
  {
    if d !in s {
      SplitWithoutSeparator(s, d);
    }
  }
}
