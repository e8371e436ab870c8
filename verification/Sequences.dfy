/** What several modules need of sequences. */
module Sequences {

  predicate Distinct<T(==)>(s: seq<T>) {
    forall i, j :: 0 <= i < j < |s| ==> s[i] != s[j]
  }

  function Join<T>(parts: seq<seq<T>>): seq<T> {
    if |parts| == 0 then [] else parts[0] + Join(parts[1..])
  }

  lemma Associates<T>(a: seq<T>, b: seq<T>, c: seq<T>)
    ensures a + b + c == a + (b + c)
  {}

  lemma {:induction false} JoinConcat<T>(a: seq<seq<T>>, b: seq<seq<T>>)
    ensures Join(a + b) == Join(a) + Join(b)
  {
    if |a| == 0 {
      assert a + b == b;
      assert [] + Join(b) == Join(b);
    } else {
      calc {
        Join(a + b);
        { assert (a + b)[1..] == a[1..] + b; }
        a[0] + Join(a[1..] + b);
        { JoinConcat(a[1..], b); }
        a[0] + (Join(a[1..]) + Join(b));
        { Associates(a[0], Join(a[1..]), Join(b)); }
        Join(a) + Join(b);
      }
    }
  }

  lemma JoinSnoc<T>(a: seq<seq<T>>, x: seq<T>)
    ensures Join(a + [x]) == Join(a) + x
  {
    JoinConcat(a, [x]);
    assert Join([x]) == x;
  }

  // ----- numbers as bytes

  /** Most significant byte first. */
  function BigEndian(s: seq<int>): int {
    if |s| == 0 then 0 else 256 * BigEndian(s[..|s| - 1]) + s[|s| - 1]
  }

  /** Least significant byte first. */
  function LittleEndian(s: seq<int>): int {
    if |s| == 0 then 0 else s[0] + 256 * LittleEndian(s[1..])
  }

  lemma BigEndianTwo(s: seq<int>)
    requires |s| == 2
    ensures BigEndian(s) == 256 * s[0] + s[1]
  {
    assert s[..1][..0] == [];
    assert BigEndian(s[..1]) == s[0];
  }

  lemma LittleEndianTwo(s: seq<int>)
    requires |s| == 2
    ensures LittleEndian(s) == s[0] + 256 * s[1]
  {
    assert s[1..][1..] == [];
    assert LittleEndian(s[1..]) == s[1];
  }

  lemma {:induction false} LittleEndianConcat(s: seq<int>, t: seq<int>)
    requires |s| == 2
    ensures LittleEndian(s + t) == LittleEndian(s) + 0x1_0000 * LittleEndian(t)
  {
    LittleEndianTwo(s);
    assert (s + t)[1..][1..] == t;
    assert LittleEndian((s + t)[1..]) == s[1] + 256 * LittleEndian(t);
  }
}
