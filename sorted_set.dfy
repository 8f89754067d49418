/**
 * std::set<GLuint>, the set of valid ids the garbage collector hands to the
 * manager, kept as its elements in ascending order (the order in which a
 * range-for over the set visits them).
 */
module SortedSet {
  import opened GLTypes

  /** Ascending without repetition: what iterating a std::set yields. */
  ghost predicate StrictlyIncreasing(xs: seq<GLuint>) {
    forall i, j :: 0 <= i < j < |xs| ==> xs[i] < xs[j]
  }

  ghost function Elements(xs: seq<GLuint>): set<GLuint> {
    set x | x in xs
  }

  /** The head of an ascending sequence is its least element. */
  lemma HeadIsLeast(v: seq<GLuint>)
    requires StrictlyIncreasing(v) && v != []
    ensures forall x :: x in v[1..] ==> v[0] < x
    ensures forall x :: x in v <==> x == v[0] || x in v[1..]
  {
    forall x | x in v[1..] ensures v[0] < x {
      var j :| 0 <= j < |v| - 1 && v[1..][j] == x;
      assert v[j + 1] == x;
    }
    assert v == [v[0]] + v[1..];
  }

  /** Putting a smaller element in front keeps a sequence ascending. */
  lemma IncreasingCons(x: GLuint, t: seq<GLuint>)
    requires StrictlyIncreasing(t)
    requires forall y :: y in t ==> x < y
    ensures StrictlyIncreasing([x] + t)
  {
    forall i, j | 0 <= i < j < |t| + 1 ensures ([x] + t)[i] < ([x] + t)[j] {
      assert ([x] + t)[j] == t[j - 1] && t[j - 1] in t;
      if i > 0 {
        assert ([x] + t)[i] == t[i - 1];
      }
    }
  }

  /** std::set::insert: adds x unless it is already there. */
  function Insert(s: seq<GLuint>, x: GLuint): (r: seq<GLuint>)
    requires StrictlyIncreasing(s)
    ensures StrictlyIncreasing(r)
    ensures forall y :: y in r <==> y in s || y == x
    ensures x in s ==> r == s
  {
    if s == [] then [x]
    else if x < s[0] then [x] + s
    else if x == s[0] then s
    else
      var t := Insert(s[1..], x);
      InsertBehindHead(s, x, t);
      [s[0]] + t
  }

  /** The recursive step of Insert: x goes behind a smaller head. */
  lemma InsertBehindHead(s: seq<GLuint>, x: GLuint, t: seq<GLuint>)
    requires StrictlyIncreasing(s) && s != [] && s[0] < x
    requires StrictlyIncreasing(t)
    requires forall y :: y in t <==> y in s[1..] || y == x
    requires x in s[1..] ==> t == s[1..]
    ensures StrictlyIncreasing([s[0]] + t)
    ensures forall y :: y in [s[0]] + t <==> y in s || y == x
    ensures x in s ==> [s[0]] + t == s
  {
    HeadIsLeast(s);
    IncreasingCons(s[0], t);
    assert s == [s[0]] + s[1..];
  }

  lemma EmptyElements(xs: seq<GLuint>)
    ensures Elements(xs) == {} <==> xs == []
  {
    if xs != [] {
      assert xs[0] in Elements(xs);
    }
  }

  /** A std::set is determined by its elements: two ascending sequences with the same elements are equal. */
  lemma {:induction false} SameElementsSameSequence(a: seq<GLuint>, b: seq<GLuint>)
    requires StrictlyIncreasing(a) && StrictlyIncreasing(b)
    requires Elements(a) == Elements(b)
    ensures a == b
  {
    EmptyElements(a);
    EmptyElements(b);
    if a != [] {
      assert a[0] in Elements(b) && b != [];
      assert b[0] in Elements(a);
      assert a[0] == b[0];
      assert Elements(a[1..]) == Elements(a) - {a[0]} by {
        assert a == [a[0]] + a[1..];
      }
      assert Elements(b[1..]) == Elements(b) - {b[0]} by {
        assert b == [b[0]] + b[1..];
      }
      SameElementsSameSequence(a[1..], b[1..]);
      assert a == [a[0]] + a[1..] && b == [b[0]] + b[1..];
    }
  }
}
