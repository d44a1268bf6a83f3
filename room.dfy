/**
 * The private-room name that the `join chat` and `private message` handlers
 * derive from two usernames: `private_${[a, b].sort().join('_')}`.
 */
module Room {

  /** The namespace prefix of every private room. */
  const Prefix: string := "private_"

  /** The separator `join('_')` puts between the two sorted usernames. */
  const Separator: string := "_"

  /**
   * JavaScript's `<` on strings, which `Array.prototype.sort` uses when it is
   * given no comparator: lexicographic order on characters, a proper prefix
   * coming before every longer string that starts with it.
   */
  predicate Less(a: string, b: string)
  {
    if b == [] then false
    else if a == [] then true
    else if a[0] != b[0] then a[0] < b[0]
    else Less(a[1..], b[1..])
  }

  /** `a` is a proper prefix of `b`. */
  ghost predicate ProperPrefix(a: string, b: string)
  {
    |a| < |b| && a == b[..|a|]
  }

  /** At the first position where `a` and `b` differ, `a` has the smaller character. */
  ghost predicate SmallerAtFirstDifference(a: string, b: string)
  {
    exists k :: 0 <= k < |a| && k < |b| && a[..k] == b[..k] && a[k] < b[k]
  }

  /**
   * The same order stated by positions, as the ECMAScript definition of
   * string comparison does.
   */
  ghost predicate LessByIndex(a: string, b: string)
  {
    ProperPrefix(a, b) || SmallerAtFirstDifference(a, b)
  }

  /** Dropping a common first character keeps the prefix relation. */
  lemma ProperPrefixTail(a: string, b: string)
    requires a != [] && b != [] && a[0] == b[0]
    ensures ProperPrefix(a, b) <==> ProperPrefix(a[1..], b[1..])
  {
  }

  /** Dropping a common first character moves the first difference one place left. */
  lemma SmallerAtFirstDifferenceTail(a: string, b: string)
    requires a != [] && b != [] && a[0] == b[0]
    ensures SmallerAtFirstDifference(a, b) <==> SmallerAtFirstDifference(a[1..], b[1..])
  {
    var a', b' := a[1..], b[1..];
    if SmallerAtFirstDifference(a, b) {
      var k :| 0 <= k < |a| && k < |b| && a[..k] == b[..k] && a[k] < b[k];
      assert k > 0;
      assert a[..k] == [a[0]] + a'[..k - 1] && b[..k] == [b[0]] + b'[..k - 1];
      assert a'[..k - 1] == b'[..k - 1] && a'[k - 1] < b'[k - 1];
    }
    if SmallerAtFirstDifference(a', b') {
      var k :| 0 <= k < |a'| && k < |b'| && a'[..k] == b'[..k] && a'[k] < b'[k];
      assert a[..k + 1] == [a[0]] + a'[..k] && b[..k + 1] == [b[0]] + b'[..k];
      assert a[k + 1] < b[k + 1];
    }
  }

  /** When the first characters differ, they decide the positional order. */
  lemma LessByIndexAtHead(a: string, b: string)
    requires a != [] && b != [] && a[0] != b[0]
    ensures LessByIndex(a, b) <==> a[0] < b[0]
  {
  }

  /** The recursive definition and the positional one agree. */
  lemma {:induction false} LessIsLexicographic(a: string, b: string)
    ensures Less(a, b) <==> LessByIndex(a, b)
  {
    if b == [] {
    } else if a == [] {
      assert a == b[..0];
    } else if a[0] != b[0] {
      LessByIndexAtHead(a, b);
    } else {
      LessIsLexicographic(a[1..], b[1..]);
      ProperPrefixTail(a, b);
      SmallerAtFirstDifferenceTail(a, b);
    }
  }

  /** `Less` never holds both ways (and so never of a string and itself). */
  lemma {:induction false} LessAsymmetric(a: string, b: string)
    ensures !(Less(a, b) && Less(b, a))
  {
    if a != [] && b != [] && a[0] == b[0] {
      LessAsymmetric(a[1..], b[1..]);
    }
  }

  /** Any two different strings are ordered one way or the other. */
  lemma {:induction false} LessTotal(a: string, b: string)
    ensures a == b || Less(a, b) || Less(b, a)
  {
    if a != [] && b != [] && a[0] == b[0] {
      LessTotal(a[1..], b[1..]);
      assert a == [a[0]] + a[1..] && b == [b[0]] + b[1..];
    }
  }

  /**
   * `[a, b].sort()`: the pair comes out in ascending order and holds the same
   * two strings.
   */
  function SortPair(a: string, b: string): (p: (string, string))
    ensures multiset{p.0, p.1} == multiset{a, b}
    ensures !Less(p.1, p.0)
  {
    if Less(b, a) then LessAsymmetric(a, b); (b, a) else (a, b)
  }

  /**
   * `private_${[a, b].sort().join('_')}`: the prefix, the smaller of the two
   * usernames, the separator, the larger one.
   */
  function RoomName(a: string, b: string): (r: string)
    ensures Less(a, b) || a == b ==> r == Prefix + a + Separator + b
    ensures Less(b, a) ==> r == Prefix + b + Separator + a
  {
    LessAsymmetric(a, b);
    var p := SortPair(a, b);
    Prefix + p.0 + Separator + p.1
  }

  /** Both participants derive the same room, whichever of them asks. */
  lemma RoomNameSymmetric(a: string, b: string)
    ensures RoomName(a, b) == RoomName(b, a)
  {
    LessTotal(a, b);
  }
}
