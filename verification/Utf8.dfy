/**
  Lexicographic order on strings and on raw bytes, and the UTF-8 encoding,
  which carries the one to the other (section 1 of RFC 3629).
 */
module Utf8 {
  import opened Bytes
  import opened Wrappers

  /** A Unicode scalar value: a code point that is not a surrogate. */
  type Scalar = c: int | 0 <= c < 0xD800 || 0xE000 <= c < 0x110000

  // ---------------------------------------------------------------- order

  /** Python's `<` on sequences of numbers. */
  predicate Less(a: seq<int>, b: seq<int>)
    decreases |a|
  {
    if b == [] then false
    else if a == [] then true
    else if a[0] != b[0] then a[0] < b[0]
    else Less(a[1..], b[1..])
  }

  /** a is a proper initial part of b, or smaller at the first place where they differ. */
  lemma {:induction false} LessIff(a: seq<int>, b: seq<int>)
    ensures Less(a, b) <==> a < b || exists i :: SmallerAt(a, b, i)
    decreases |a|
  {
    if a != [] && b != [] {
      if a[0] == b[0] {
        LessIff(a[1..], b[1..]);
        assert a == [a[0]] + a[1..] && b == [b[0]] + b[1..];
        if i :| SmallerAt(a[1..], b[1..], i) {
          assert SmallerAt(a, b, i + 1);
        }
        if i :| SmallerAt(a, b, i) {
          assert SmallerAt(a[1..], b[1..], i - 1);
        }
      } else {
        assert a[0] < b[0] ==> SmallerAt(a, b, 0);
        assert forall i :: SmallerAt(a, b, i) ==> i == 0;
      }
    }
  }

  ghost predicate SmallerAt(a: seq<int>, b: seq<int>, i: int) {
    0 <= i < |a| && i < |b| && a[i] < b[i] && forall j :: 0 <= j < i ==> a[j] == b[j]
  }

  lemma {:induction false} Trichotomy(a: seq<int>, b: seq<int>)
    ensures !(Less(a, b) && Less(b, a))
    ensures !Less(a, a)
    ensures Less(a, b) || a == b || Less(b, a)
    decreases |a|
  {
    if a != [] {
      Trichotomy(a[1..], a[1..]);
      if b != [] {
        Trichotomy(a[1..], b[1..]);
        assert a == [a[0]] + a[1..] && b == [b[0]] + b[1..];
      }
    }
  }

  lemma {:induction false} Transitive(a: seq<int>, b: seq<int>, c: seq<int>)
    requires Less(a, b) && Less(b, c)
    ensures Less(a, c)
    decreases |a|
  {
    if a != [] && a[0] == b[0] == c[0] {
      Transitive(a[1..], b[1..], c[1..]);
    }
  }

  lemma {:induction false} LessUnderPrefix(p: seq<int>, a: seq<int>, b: seq<int>)
    ensures Less(p + a, p + b) == Less(a, b)
    decreases |p|
  {
    if p == [] {
      assert p + a == a && p + b == b;
    } else {
      assert (p + a)[1..] == p[1..] + a && (p + b)[1..] == p[1..] + b;
      LessUnderPrefix(p[1..], a, b);
    }
  }

  // ---------------------------------------------------------------- UTF-8

  function EncodeScalar(c: Scalar): (r: seq<byte>)
    ensures 1 <= |r| <= 4
  {
    if c < 0x80 then [c]
    else if c < 0x800 then [0xC0 + c / 0x40, 0x80 + c % 0x40]
    else if c < 0x10000 then [0xE0 + c / 0x1000, 0x80 + c / 0x40 % 0x40, 0x80 + c % 0x40]
    else [0xF0 + c / 0x40000, 0x80 + c / 0x1000 % 0x40, 0x80 + c / 0x40 % 0x40, 0x80 + c % 0x40]
  }

  function Encode(s: seq<Scalar>): seq<byte> {
    if s == [] then [] else EncodeScalar(s[0]) + Encode(s[1..])
  }

  lemma {:induction false} EncodeConcat(s: seq<Scalar>, t: seq<Scalar>)
    ensures Encode(s + t) == Encode(s) + Encode(t)
    decreases |s|
  {
    hide EncodeScalar;
    if s == [] {
      assert s + t == t;
    } else {
      EncodeConcat(s[1..], t);
      assert (s + t)[0] == s[0] && (s + t)[1..] == s[1..] + t;
      Associative(EncodeScalar(s[0]), Encode(s[1..]), Encode(t));
    }
  }

  /** The first byte where two sequences differ decides their order. */
  lemma DifferAt(a: seq<int>, b: seq<int>, i: nat)
    requires i < |a| && i < |b| && a[..i] == b[..i] && a[i] < b[i]
    ensures Less(a, b) && !Less(b, a) && a != b
  {
    assert a == a[..i] + a[i..] && b == a[..i] + b[i..];
    LessUnderPrefix(a[..i], a[i..], b[i..]);
    Trichotomy(a, b);
    assert a[i] != b[i];
  }

  lemma ShortDiffer(c: Scalar, d: Scalar) returns (i: nat)
    requires 0x80 <= c < d < 0x800
    ensures var a, b := EncodeScalar(c), EncodeScalar(d);
      i < |a| && i < |b| && a[..i] == b[..i] && a[i] < b[i]
  {
    DigitsDiffer(c, d);
    i := if c / 0x40 < d / 0x40 then 0 else 1;
  }

  lemma MiddleDiffer(c: Scalar, d: Scalar) returns (i: nat)
    requires 0x800 <= c < d < 0x10000
    ensures var a, b := EncodeScalar(c), EncodeScalar(d);
      i < |a| && i < |b| && a[..i] == b[..i] && a[i] < b[i]
  {
    DigitsDiffer(c, d);
    i := if c / 0x1000 < d / 0x1000 then 0 else if c / 0x40 < d / 0x40 then 1 else 2;
  }

  lemma LongDiffer(c: Scalar, d: Scalar) returns (i: nat)
    requires 0x10000 <= c < d
    ensures var a, b := EncodeScalar(c), EncodeScalar(d);
      i < |a| && i < |b| && a[..i] == b[..i] && a[i] < b[i]
  {
    DigitsDiffer(c, d);
    i := if c / 0x40000 < d / 0x40000 then 0 else if c / 0x1000 < d / 0x1000 then 1 else if c / 0x40 < d / 0x40 then 2 else 3;
  }

  /** A smaller scalar has an encoding that is smaller at the first byte where they differ. */
  lemma ScalarDiffer(c: Scalar, d: Scalar) returns (i: nat)
    requires c < d
    ensures var a, b := EncodeScalar(c), EncodeScalar(d);
      i < |a| && i < |b| && a[..i] == b[..i] && a[i] < b[i]
  {
    if c < 0x80 || (c < 0x800 <= d) || (c < 0x10000 <= d) {
      i := 0;
    } else {
      hide EncodeScalar;
      if d < 0x800 {
        i := ShortDiffer(c, d);
      } else if d < 0x10000 {
        i := MiddleDiffer(c, d);
      } else {
        i := LongDiffer(c, d);
      }
    }
  }

  /** Dropping the last six bits, twelve, eighteen: the larger number stays larger until only the rest differs. */
  lemma DigitsDiffer(c: nat, d: nat)
    requires c < d
    ensures c / 0x40 < d / 0x40 || (c / 0x40 == d / 0x40 && c % 0x40 < d % 0x40)
    ensures c / 0x40 < d / 0x40 ==>
      c / 0x1000 < d / 0x1000 || (c / 0x1000 == d / 0x1000 && c / 0x40 % 0x40 < d / 0x40 % 0x40)
    ensures c / 0x1000 < d / 0x1000 ==>
      c / 0x40000 < d / 0x40000 || (c / 0x40000 == d / 0x40000 && c / 0x1000 % 0x40 < d / 0x1000 % 0x40)
  {
    LastDigit(c, d);
    LastDigit(c / 0x40, d / 0x40);
    LastDigit(c / 0x1000, d / 0x1000);
    assert c / 0x1000 == c / 0x40 / 0x40 && d / 0x1000 == d / 0x40 / 0x40;
    assert c / 0x40000 == c / 0x1000 / 0x40 && d / 0x40000 == d / 0x1000 / 0x40;
  }

  lemma LastDigit(c: nat, d: nat)
    ensures c < d ==> c / 0x40 < d / 0x40 || (c / 0x40 == d / 0x40 && c % 0x40 < d % 0x40)
  {
  }

  /** UTF-8 keeps the code point order, so sorting strings sorts their raw encodings. */
  lemma {:induction false} EncodeKeepsOrder(s: seq<Scalar>, t: seq<Scalar>)
    ensures Less(Encode(s), Encode(t)) <==> Less(s, t)
    decreases |s|
  {
    if s != [] && t != [] {
      var a, b := EncodeScalar(s[0]), EncodeScalar(t[0]);
      var x, y := Encode(s[1..]), Encode(t[1..]);
      if s[0] == t[0] {
        LessUnderPrefix(a, x, y);
        EncodeKeepsOrder(s[1..], t[1..]);
      } else if s[0] < t[0] {
        var i := ScalarDiffer(s[0], t[0]);
        assert (a + x)[..i] == a[..i] && (b + y)[..i] == b[..i];
        DifferAt(a + x, b + y, i);
      } else {
        var i := ScalarDiffer(t[0], s[0]);
        assert (a + x)[..i] == a[..i] && (b + y)[..i] == b[..i];
        DifferAt(b + y, a + x, i);
      }
    }
  }

  lemma EncodeInjective(s: seq<Scalar>, t: seq<Scalar>)
    requires Encode(s) == Encode(t)
    ensures s == t
  {
    EncodeKeepsOrder(s, t);
    EncodeKeepsOrder(t, s);
    Trichotomy(s, t);
    Trichotomy(Encode(s), Encode(t));
  }

  // ---------------------------------------------------------------- section 3 of RFC 3629

  /** The six bits of the continuation byte at i, if there is one: 10xxxxxx. */
  ghost function Tail(b: seq<byte>, i: nat): Option<nat> {
    if i < |b| && 0x80 <= b[i] <= 0xBF then Some(b[i] - 0x80) else None
  }

  /** A scalar value of `width` bytes, unless fewer would do or it is a surrogate or too large. */
  ghost function Checked(c: nat, least: nat, width: nat): Option<(Scalar, nat)> {
    if c < least || 0xD800 <= c <= 0xDFFF || c > 0x10FFFF then None else Some((c, width))
  }

  /** The first scalar value of a byte string and its width: the lead byte says how many six-bit groups follow. */
  ghost function DecodeFirst(b: seq<byte>): Option<(Scalar, nat)>
    requires b != []
  {
    var t1, t2, t3 := Tail(b, 1), Tail(b, 2), Tail(b, 3);
    if b[0] <= 0x7F then Some((b[0], 1))
    else if 0xC0 <= b[0] <= 0xDF && t1.Some? then Checked((b[0] - 0xC0) * 64 + t1.value, 0x80, 2)
    else if 0xE0 <= b[0] <= 0xEF && t1.Some? && t2.Some? then
      Checked(((b[0] - 0xE0) * 64 + t1.value) * 64 + t2.value, 0x800, 3)
    else if 0xF0 <= b[0] <= 0xF7 && t1.Some? && t2.Some? && t3.Some? then
      Checked((((b[0] - 0xF0) * 64 + t1.value) * 64 + t2.value) * 64 + t3.value, 0x10000, 4)
    else None
  }

  /** The text a byte string is the UTF-8 of, if it is the UTF-8 of one. */
  ghost function Decode(b: seq<byte>): Option<seq<Scalar>> {
    if b == [] then Some([])
    else
      match DecodeFirst(b)
      case None => None
      case Some((c, width)) =>
        if width == 0 || width > |b| then None
        else
          match Decode(b[width..])
          case None => None
          case Some(s) => Some([c] + s)
  }

  lemma SixBits(c: nat)
    ensures c / 0x40 * 64 + c % 0x40 == c
  {
  }

  /** A lead byte and its continuation bytes, whatever follows. */
  lemma DecodeTwo(c: Scalar, b: seq<byte>, lead: nat, t1: nat)
    requires lead < 32 && t1 < 64 && c == lead * 64 + t1 && 0x80 <= c
    requires |b| >= 2 && b[0] == 0xC0 + lead && b[1] == 0x80 + t1
    ensures DecodeFirst(b) == Some((c, 2))
  {
  }

  lemma DecodeThree(c: Scalar, b: seq<byte>, lead: nat, t1: nat, t2: nat)
    requires lead < 16 && t1 < 64 && t2 < 64 && c == (lead * 64 + t1) * 64 + t2 && 0x800 <= c
    requires |b| >= 3 && b[0] == 0xE0 + lead && b[1] == 0x80 + t1 && b[2] == 0x80 + t2
    ensures DecodeFirst(b) == Some((c, 3))
  {
  }

  lemma DecodeFour(c: Scalar, b: seq<byte>, lead: nat, t1: nat, t2: nat, t3: nat)
    requires lead < 8 && t1 < 64 && t2 < 64 && t3 < 64 && c == ((lead * 64 + t1) * 64 + t2) * 64 + t3 && 0x10000 <= c
    requires |b| >= 4 && b[0] == 0xF0 + lead && b[1] == 0x80 + t1 && b[2] == 0x80 + t2 && b[3] == 0x80 + t3
    ensures DecodeFirst(b) == Some((c, 4))
  {
  }

  lemma DecodeScalar(c: Scalar, rest: seq<byte>)
    ensures EncodeScalar(c) + rest != []
    ensures DecodeFirst(EncodeScalar(c) + rest) == Some((c, |EncodeScalar(c)|))
  {
    hide DecodeFirst;
    var b := EncodeScalar(c) + rest;
    SixBits(c);
    SixBits(c / 0x40);
    SixBits(c / 0x1000);
    assert c / 0x1000 == c / 0x40 / 0x40 && c / 0x40000 == c / 0x1000 / 0x40;
    if c < 0x80 {
      DecodeOne(c, b);
    } else if c < 0x800 {
      DecodeTwo(c, b, c / 0x40, c % 0x40);
    } else if c < 0x10000 {
      DecodeThree(c, b, c / 0x1000, c / 0x40 % 0x40, c % 0x40);
    } else {
      DecodeFour(c, b, c / 0x40000, c / 0x1000 % 0x40, c / 0x40 % 0x40, c % 0x40);
    }
  }

  lemma DecodeOne(c: Scalar, b: seq<byte>)
    requires c < 0x80 && b != [] && b[0] == c
    ensures DecodeFirst(b) == Some((c, 1))
  {
  }

  lemma SixBitsBack(m: nat, t: nat)
    requires t < 64
    ensures (m * 64 + t) / 0x40 == m && (m * 64 + t) % 0x40 == t
  {
  }

  lemma BackFromTwo(c: Scalar, lead: nat, t1: nat)
    requires lead < 32 && t1 < 64 && c == lead * 64 + t1 && 0x80 <= c
    ensures EncodeScalar(c) == [0xC0 + lead, 0x80 + t1]
  {
    SixBitsBack(lead, t1);
  }

  lemma BackFromThree(c: Scalar, lead: nat, t1: nat, t2: nat)
    requires lead < 16 && t1 < 64 && t2 < 64 && c == (lead * 64 + t1) * 64 + t2 && 0x800 <= c
    ensures EncodeScalar(c) == [0xE0 + lead, 0x80 + t1, 0x80 + t2]
  {
    SixBitsBack(lead, t1);
    SixBitsBack(lead * 64 + t1, t2);
    assert c / 0x1000 == c / 0x40 / 0x40;
  }

  lemma BackFromFour(c: Scalar, lead: nat, t1: nat, t2: nat, t3: nat)
    requires lead < 8 && t1 < 64 && t2 < 64 && t3 < 64 && c == ((lead * 64 + t1) * 64 + t2) * 64 + t3 && 0x10000 <= c
    ensures EncodeScalar(c) == [0xF0 + lead, 0x80 + t1, 0x80 + t2, 0x80 + t3]
  {
    SixBitsBack(lead, t1);
    SixBitsBack(lead * 64 + t1, t2);
    SixBitsBack((lead * 64 + t1) * 64 + t2, t3);
    assert c / 0x1000 == c / 0x40 / 0x40 && c / 0x40000 == c / 0x1000 / 0x40;
  }

  lemma EncodeDecodedScalar(b: seq<byte>, c: Scalar, width: nat)
    requires b != [] && DecodeFirst(b) == Some((c, width))
    ensures 0 < width <= |b| && b[..width] == EncodeScalar(c)
  {
    if b[0] <= 0x7F {
      assert EncodeScalar(c) == [b[0]];
    } else {
      hide EncodeScalar;
      if b[0] <= 0xDF {
        BackFromTwo(c, b[0] - 0xC0, Tail(b, 1).value);
      } else if b[0] <= 0xEF {
        BackFromThree(c, b[0] - 0xE0, Tail(b, 1).value, Tail(b, 2).value);
      } else {
        BackFromFour(c, b[0] - 0xF0, Tail(b, 1).value, Tail(b, 2).value, Tail(b, 3).value);
      }
    }
  }

  /** Encode is UTF-8: a byte string decodes to a text exactly when it is what Encode gives for the text. */
  lemma {:induction false} DecodesIffEncoded(b: seq<byte>, s: seq<Scalar>)
    ensures Decode(b) == Some(s) <==> b == Encode(s)
    decreases |b| + |s|
  {
    hide EncodeScalar, DecodeFirst;
    if s != [] && b == Encode(s) {
      DecodeScalar(s[0], Encode(s[1..]));
      DecodesIffEncoded(Encode(s[1..]), s[1..]);
      assert b[|EncodeScalar(s[0])|..] == Encode(s[1..]);
      assert s == [s[0]] + s[1..];
    }
    if b != [] && Decode(b) == Some(s) {
      var (c, width) := DecodeFirst(b).value;
      EncodeDecodedScalar(b, c, width);
      DecodesIffEncoded(b[width..], s[1..]);
      assert b == b[..width] + b[width..];
    }
  }

  // ---------------------------------------------------------------- sorted()

  ghost predicate Ascending(r: seq<seq<int>>) {
    forall i, j :: 0 <= i < j < |r| ==> Less(r[i], r[j])
  }

  lemma LeastExists(keys: set<seq<int>>) returns (k: seq<int>)
    requires keys != {}
    ensures k in keys && forall j :: j in keys && j != k ==> Less(k, j)
  {
    k :| k in keys;
    var rest := keys - {k};
    if rest != {} {
      var m := LeastExists(rest);
      Trichotomy(k, m);
      var least := if Less(m, k) then m else k;
      forall j | j in keys && j != least
        ensures Less(least, j)
      {
        if j != m && j != k && least == k { Transitive(k, m, j); }
      }
      k := least;
    } else {
      assert forall j :: j in keys && j != k ==> j in rest;
    }
  }

  ghost function Least(keys: set<seq<int>>): (k: seq<int>)
    requires keys != {}
    ensures k in keys && forall j :: j in keys && j != k ==> Less(k, j)
  {
    assert exists k :: k in keys && forall j :: j in keys && j != k ==> Less(k, j) by {
      var k := LeastExists(keys);
    }
    var k :| k in keys && forall j :: j in keys && j != k ==> Less(k, j);
    k
  }

  /** sorted(keys) of a set of keys. */
  ghost function Sorted(keys: set<seq<int>>): (r: seq<seq<int>>)
    ensures Ascending(r)
    ensures forall k :: k in r <==> k in keys
  {
    if keys == {} then [] else [Least(keys)] + Sorted(keys - {Least(keys)})
  }

  /** Only one ascending sequence has these elements. */
  lemma {:induction false} SortedUnique(r: seq<seq<int>>, keys: set<seq<int>>)
    requires Ascending(r) && forall k :: k in r <==> k in keys
    ensures r == Sorted(keys)
    decreases |r|
  {
    if r == [] {
      assert keys == {} by {
        if k :| k in keys { assert k in r; }
      }
    } else {
      assert r[0] in r;
      var least := Least(keys);
      assert least in r;
      var i :| 0 <= i < |r| && r[i] == least;
      if i > 0 {
        Trichotomy(r[0], r[i]);
      }
      var rest := keys - {r[0]};
      forall k
        ensures k in r[1..] <==> k in rest
      {
        Trichotomy(r[0], r[0]);
        if k in rest {
          assert k in r;
          var n :| 0 <= n < |r| && r[n] == k;
          assert r[1..][n - 1] == k;
        }
        if k in r[1..] {
          var n :| 0 <= n < |r| - 1 && r[1..][n] == k;
          assert Less(r[0], r[n + 1]);
          assert k in r;
        }
      }
      SortedUnique(r[1..], rest);
    }
  }

  lemma SortedPrepend(left: set<seq<int>>, k: seq<int>)
    requires k in left && forall j :: j in left && j != k ==> Less(k, j)
    ensures Sorted(left) == [k] + Sorted(left - {k})
  {
    var m := Least(left);
    if m != k {
      Trichotomy(k, m);
    }
  }

  lemma TakenLeast(r: seq<seq<int>>, left: set<seq<int>>, k: seq<int>)
    requires k in left && forall j :: j in left && j != k ==> Less(k, j)
    ensures (r + [k]) + Sorted(left - {k}) == r + Sorted(left)
  {
    hide Less, Ascending;
    SortedPrepend(left, k);
    assert (r + [k]) + Sorted(left - {k}) == r + ([k] + Sorted(left - {k}));
  }

  /** Selection of the least key that is left, until none is left. */
  method SortSet(keys: set<seq<int>>) returns (r: seq<seq<int>>)
    ensures r == Sorted(keys)
  {
    hide Less, Ascending, Sorted;
    r := [];
    assert r + Sorted(keys) == Sorted(keys);
    var left := keys;
    while left != {}
      invariant r + Sorted(left) == Sorted(keys)
      decreases |left|
    {
      var k := FindLeast(left);
      TakenLeast(r, left, k);
      r, left := r + [k], left - {k};
    }
    EmptySorted();
    assert r + [] == r;
  }

  lemma EmptySorted()
    ensures Sorted({}) == []
  {
  }

  method FindLeast(keys: set<seq<int>>) returns (k: seq<int>)
    requires keys != {}
    ensures k in keys && forall j :: j in keys && j != k ==> Less(k, j)
  {
    k :| k in keys;
    var left := keys - {k};
    while left != {}
      invariant left <= keys && k in keys && k !in left
      invariant forall j :: j in keys && j !in left && j != k ==> Less(k, j)
      decreases |left|
    {
      var j :| j in left;
      Trichotomy(j, k);
      if Less(j, k) {
        forall i | i in keys && i !in left && i != j
          ensures Less(j, i)
        {
          if i != k { Transitive(j, k, i); }
        }
        k := j;
      }
      left := left - {j};
    }
  }
}
