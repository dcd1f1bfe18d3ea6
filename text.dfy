/** The two pieces of Python string behaviour the registry relies on:
    `s.split(',')` and the comparison `s.lower() == "yes"`. */
module Text {

  /** Python's `s.split(',')` with an explicit separator: never empty, an empty
      string gives `[""]`, adjacent or trailing commas give empty pieces, and
      nothing is trimmed. */
  function SplitComma(s: string): (parts: seq<string>)
    ensures |parts| >= 1
  {
    if s == [] then [""]
    else
      var rest := SplitComma(s[1..]);
      if s[0] == ',' then [""] + rest
      else [[s[0]] + rest[0]] + rest[1..]
  }

  /** `",".join(parts)`: the reference the pieces of a split are checked against. */
  function JoinComma(parts: seq<string>): string
    requires |parts| >= 1
  {
    if |parts| == 1 then parts[0] else parts[0] + "," + JoinComma(parts[1..])
  }

  predicate CommaFree(s: string) {
    forall i :: 0 <= i < |s| ==> s[i] != ','
  }

  /** Re-joining the pieces gives back the original string exactly: split drops
      the separators and nothing else. */
  lemma {:induction false} JoinSplit(s: string)
    ensures JoinComma(SplitComma(s)) == s
  {
    if s != [] {
      var rest := SplitComma(s[1..]);
      JoinSplit(s[1..]);
      if s[0] == ',' {
        assert SplitComma(s) == [""] + rest;
        assert JoinComma(SplitComma(s)) == "" + "," + JoinComma(rest);
      } else {
        var parts := SplitComma(s);
        assert parts == [[s[0]] + rest[0]] + rest[1..];
        if |rest| == 1 {
          assert JoinComma(parts) == [s[0]] + rest[0];
        } else {
          assert parts[1..] == rest[1..];
          assert JoinComma(rest) == rest[0] + "," + JoinComma(rest[1..]);
          assert JoinComma(parts) == ([s[0]] + rest[0]) + "," + JoinComma(rest[1..]);
        }
      }
    }
  }

  /** No piece of a split contains the separator. */
  lemma {:induction false} SplitPiecesCommaFree(s: string)
    ensures forall i :: 0 <= i < |SplitComma(s)| ==> CommaFree(SplitComma(s)[i])
  {
    if s != [] {
      SplitPiecesCommaFree(s[1..]);
      var rest := SplitComma(s[1..]);
      if s[0] != ',' {
        assert CommaFree([s[0]] + rest[0]) by {
          assert CommaFree(rest[0]);
        }
      }
    }
  }

  /** A string without a comma splits into itself alone. */
  lemma {:induction false} SplitCommaFree(s: string)
    requires CommaFree(s)
    ensures SplitComma(s) == [s]
  {
    if s != [] {
      SplitCommaFree(s[1..]);
      assert [s[0]] + s[1..] == s;
    }
  }

  /** One step of the split, for a string given as its first character and the
      rest: a leading comma opens an empty piece ... */
  lemma SplitConsComma(t: string)
    ensures SplitComma([','] + t) == [""] + SplitComma(t)
  {
    assert ([','] + t)[1..] == t;
  }

  /** ... and any other character joins the first piece of the rest. */
  lemma SplitConsOther(c: char, t: string)
    requires c != ','
    ensures SplitComma([c] + t) == [[c] + SplitComma(t)[0]] + SplitComma(t)[1..]
  {
    assert ([c] + t)[1..] == t;
  }

  /** Prefixing a character to the first piece of a split and then appending
      more pieces is the same as appending first. */
  lemma HeadAppend(c: char, left: seq<string>, right: seq<string>)
    requires |left| >= 1
    ensures [[c] + (left + right)[0]] + (left + right)[1..] == ([[c] + left[0]] + left[1..]) + right
  {
    assert (left + right)[1..] == left[1..] + right;
  }

  /** Putting one more character in front of the left side keeps the split
      at the comma independent. */
  lemma SplitAtCommaCons(c: char, a: string, b: string)
    requires SplitComma(a + "," + b) == SplitComma(a) + SplitComma(b)
    ensures SplitComma([c] + (a + "," + b)) == SplitComma([c] + a) + SplitComma(b)
  {
    var left, right := SplitComma(a), SplitComma(b);
    if c == ',' {
      SplitConsComma(a + "," + b);
      SplitConsComma(a);
      assert [""] + (left + right) == ([""] + left) + right;
    } else {
      SplitConsOther(c, a + "," + b);
      SplitConsOther(c, a);
      HeadAppend(c, left, right);
    }
  }

  /** Splitting at a comma splits the two sides independently. */
  lemma {:induction false} SplitAtComma(a: string, b: string)
    ensures SplitComma(a + "," + b) == SplitComma(a) + SplitComma(b)
  {
    if a == [] {
      assert a + "," + b == [','] + b;
      SplitConsComma(b);
    } else {
      SplitAtComma(a[1..], b);
      SplitAtCommaCons(a[0], a[1..], b);
      assert [a[0]] + (a[1..] + "," + b) == a + "," + b;
      assert [a[0]] + a[1..] == a;
    }
  }

  /** Splitting comma-free pieces joined with commas gives the pieces back. */
  lemma {:induction false} SplitJoin(parts: seq<string>)
    requires |parts| >= 1
    requires forall i :: 0 <= i < |parts| ==> CommaFree(parts[i])
    ensures SplitComma(JoinComma(parts)) == parts
  {
    SplitCommaFree(parts[0]);
    if |parts| > 1 {
      SplitJoin(parts[1..]);
      SplitAtComma(parts[0], JoinComma(parts[1..]));
      assert [parts[0]] + parts[1..] == parts;
    }
  }

  /** Python's `c.lower()` on the ASCII letters; every other character is left as is. */
  function LowerChar(c: char): char {
    if 'A' <= c <= 'Z' then (c as int + 32) as char else c
  }

  function Lower(s: string): (r: string)
    ensures |r| == |s|
    ensures forall i :: 0 <= i < |s| ==> r[i] == LowerChar(s[i])
  {
    if s == [] then [] else [LowerChar(s[0])] + Lower(s[1..])
  }
}
