/** Reference definitions used to state what `parse` does: plain splitting
    at every comma, and removal of the first comma of a string. */
module CommaSplit {

  /** Number of occurrences of `c` in `s`. */
  function Count(s: string, c: char): nat {
    multiset(s)[c]
  }

  /** Splits `s` at every `,`: the pieces between the commas, in order,
      so there is always one more piece than there are commas. */
  function Split(s: string): (r: seq<string>)
    ensures |r| >= 1
    ensures forall i :: 0 <= i < |r| ==> ',' !in r[i]
  {
    if s == [] then [[]]
    else
      var rest := Split(s[1..]);
      if s[0] == ',' then [[]] + rest
      else [[s[0]] + rest[0]] + rest[1..]
  }

  /** There is one more piece than there are commas. */
  lemma {:induction false} SplitCount(s: string)
    ensures |Split(s)| == Count(s, ',') + 1
  {
    if s != [] {
      SplitCount(s[1..]);
      assert s == [s[0]] + s[1..];
    }
  }

  /** A comma-free prefix followed by a comma is the first piece. */
  lemma {:induction false} SplitAtFirstComma(a: string, b: string)
    requires ',' !in a
    ensures Split(a + [','] + b) == [a] + Split(b)
  {
    var s := a + [','] + b;
    if a == [] {
      assert s == [','] + b;
      assert s[1..] == b;
    } else {
      assert s[0] == a[0];
      assert s[1..] == a[1..] + [','] + b;
      SplitAtFirstComma(a[1..], b);
      assert [a[0]] + a[1..] == a;
    }
  }

  /** A comma-free string is a single piece. */
  lemma {:induction false} SplitNoComma(a: string)
    requires ',' !in a
    ensures Split(a) == [a]
  {
    if a != [] {
      SplitNoComma(a[1..]);
      assert [a[0]] + a[1..] == a;
    }
  }

  /** The pieces joined back with `,` between them. */
  function Join(pieces: seq<string>): string
    requires |pieces| >= 1
  {
    if |pieces| == 1 then pieces[0] else pieces[0] + [','] + Join(pieces[1..])
  }

  /** Splitting loses nothing: joining the pieces gives the input back. */
  lemma {:induction false} JoinSplit(s: string)
    ensures Join(Split(s)) == s
  {
    if s != [] {
      var rest := Split(s[1..]);
      JoinSplit(s[1..]);
      if s[0] == ',' {
        assert Split(s)[1..] == rest;
      } else if |rest| == 1 {
        assert Split(s) == [[s[0]] + rest[0]];
      } else {
        assert Split(s)[1..] == rest[1..];
        assert Join(rest) == rest[0] + [','] + Join(rest[1..]);
      }
    }
  }

  /** Appending a `,` opens a new, empty last piece. */
  lemma {:induction false} SplitSnocComma(s: string)
    ensures Split(s + [',']) == Split(s) + [[]]
  {
    var sc := s + [','];
    if s == [] {
      assert sc == [','];
      assert sc[1..] == [];
    } else {
      assert sc[0] == s[0];
      assert sc[1..] == s[1..] + [','];
      SplitSnocComma(s[1..]);
      var rest := Split(s[1..]);
      if s[0] != ',' {
        assert (rest + [[]])[1..] == rest[1..] + [[]];
      }
    }
  }

  /** Splitting a line that starts with `x`: a comma opens a new first piece,
      anything else goes to the front of the first piece. */
  lemma SplitCons(x: char, s: string)
    ensures Split([x] + s) ==
      if x == ',' then [[]] + Split(s) else [[x] + Split(s)[0]] + Split(s)[1..]
  {
    assert ([x] + s)[1..] == s;
  }

  /** Appending any other character extends the last piece. */
  lemma {:induction false} SplitSnocOther(s: string, c: char)
    requires c != ','
    ensures var p := Split(s);
      Split(s + [c]) == p[..|p| - 1] + [p[|p| - 1] + [c]]
  {
    if s == [] {
      SplitCons(c, []);
      assert [c] + [] == s + [c];
    } else {
      var x, tail := s[0], s[1..];
      assert s == [x] + tail;
      assert s + [c] == [x] + (tail + [c]);
      SplitSnocOther(tail, c);
      SplitCons(x, tail);
      SplitCons(x, tail + [c]);
      var rest := Split(tail);
      var n := |rest|;
      var r := Split(tail + [c]);
      var p := Split(s);
      if x == ',' {
        assert p[..|p| - 1] == [[]] + rest[..n - 1];
      } else if n == 1 {
        assert r == [rest[0] + [c]];
        assert [x] + (rest[0] + [c]) == ([x] + rest[0]) + [c];
      } else {
        assert r[0] == rest[0];
        assert r[1..] == rest[1..n - 1] + [rest[n - 1] + [c]];
        assert p[..|p| - 1] == [[x] + rest[0]] + rest[1..n - 1];
      }
    }
  }

  /** `t` without its first `,` (unchanged when it has none). */
  function DropComma(t: string): (r: string)
    ensures ',' !in t ==> r == t
    ensures ',' in t ==> |r| == |t| - 1
  {
    if t == [] then []
    else if t[0] == ',' then t[1..]
    else [t[0]] + DropComma(t[1..])
  }

  /** Appending a character after the first comma has been dropped keeps it;
      appending the first comma itself drops it. */
  lemma {:induction false} DropCommaSnoc(t: string, c: char)
    ensures DropComma(t + [c]) ==
      if ',' in t then DropComma(t) + [c]
      else if c == ',' then t
      else t + [c]
  {
    var tc := t + [c];
    if t == [] {
      assert tc == [c];
    } else {
      assert tc[0] == t[0];
      assert tc[1..] == t[1..] + [c];
      assert t == [t[0]] + t[1..];
      DropCommaSnoc(t[1..], c);
    }
  }
}
