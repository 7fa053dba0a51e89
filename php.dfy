/**
 * The small part of PHP's value model and string library that the model layer
 * relies on: scalars and their truthiness and string conversion, `substr_count`
 * for one character, `implode`/`explode` on a one-character delimiter,
 * `lcfirst` and `trim` with its default character list.
 */
module Php {

  /** A PHP scalar as it is bound to a query placeholder or stored in a bean property. */
  datatype Scalar = Null | Int(i: int) | Str(s: string)

  /** PHP's conversion to bool; `!$x` and `empty($x)` are its negation. */
  predicate Truthy(x: Scalar) {
    match x
    case Null => false
    case Int(i) => i != 0
    case Str(s) => s != "" && s != "0"
  }

  function DigitChar(d: nat): char
    requires d < 10
  {
    "0123456789"[d]
  }

  /** Decimal notation of a natural number, as PHP prints it. */
  function NatToString(n: nat): string
  {
    if n < 10 then [DigitChar(n)] else NatToString(n / 10) + [DigitChar(n % 10)]
  }

  /** String interpolation of a scalar: `"{$x}"`; null interpolates as the empty string. */
  function ScalarToString(x: Scalar): string {
    match x
    case Null => ""
    case Int(i) => if i < 0 then "-" + NatToString(-i) else NatToString(i)
    case Str(s) => s
  }

  // ---------------------------------------------------------------------------
  // Counting one character (`substr_count($s, $c)` for a one-character needle)

  function Count(c: char, s: string): nat
  {
    if s == [] then 0 else (if s[0] == c then 1 else 0) + Count(c, s[1..])
  }

  lemma {:induction false} CountAppend(c: char, a: string, b: string)
    ensures Count(c, a + b) == Count(c, a) + Count(c, b)
  {
    if a == [] {
      assert a + b == b;
    } else {
      assert (a + b)[1..] == a[1..] + b;
      CountAppend(c, a[1..], b);
    }
  }

  lemma {:induction false} CountAbsent(c: char, s: string)
    requires c !in s
    ensures Count(c, s) == 0
  {
    if s != [] {
      assert c !in s[1..] by {
        forall k | 0 <= k < |s[1..]| ensures s[1..][k] != c {
          assert s[1..][k] == s[k + 1];
        }
      }
      CountAbsent(c, s[1..]);
    }
  }

  // ---------------------------------------------------------------------------
  // implode / explode

  /** `implode($glue, $pieces)`: the pieces joined by the glue. */
  function Implode(glue: string, pieces: seq<string>): string
  {
    if |pieces| == 0 then ""
    else if |pieces| == 1 then pieces[0]
    else pieces[0] + glue + Implode(glue, pieces[1..])
  }

  /**
   * `explode($delimiter, $s)` for a one-character delimiter: the maximal
   * delimiter-free pieces of `s`, in order; always at least one piece.
   */
  function Explode(delimiter: char, s: string): (pieces: seq<string>)
    ensures |pieces| >= 1
    ensures forall i :: 0 <= i < |pieces| ==> delimiter !in pieces[i]
  {
    if s == [] then [""]
    else
      var rest := Explode(delimiter, s[1..]);
      if s[0] == delimiter then [""] + rest
      else [[s[0]] + rest[0]] + rest[1..]
  }

  /** Joining the pieces of `explode` with the delimiter gives back the string. */
  lemma {:induction false} ImplodeExplode(d: char, s: string)
    ensures Implode([d], Explode(d, s)) == s
  {
    if s != [] {
      var rest := Explode(d, s[1..]);
      ImplodeExplode(d, s[1..]);
      assert s == [s[0]] + s[1..];
      if s[0] == d {
        assert Explode(d, s) == [""] + rest;
        assert ([""] + rest)[1..] == rest;
      } else if |rest| == 1 {
        assert Explode(d, s) == [[s[0]] + rest[0]];
      } else {
        var ps := [[s[0]] + rest[0]] + rest[1..];
        assert Explode(d, s) == ps;
        assert ps[1..] == rest[1..];
        assert Implode([d], ps) == [s[0]] + (rest[0] + [d] + Implode([d], rest[1..]));
      }
    }
  }

  lemma {:induction false} ExplodeNoDelimiter(d: char, s: string)
    requires d !in s
    ensures Explode(d, s) == [s]
  {
    if s != [] {
      assert d !in s[1..] by {
        forall k | 0 <= k < |s[1..]| ensures s[1..][k] != d {
          assert s[1..][k] == s[k + 1];
        }
      }
      ExplodeNoDelimiter(d, s[1..]);
      assert [s[0]] + s[1..] == s;
    }
  }

  lemma {:induction false} ExplodeSplitsAtFirst(d: char, a: string, b: string)
    requires d !in a
    ensures Explode(d, a + [d] + b) == [a] + Explode(d, b)
  {
    if a == [] {
      assert a + [d] + b == [d] + b;
      assert ([d] + b)[1..] == b;
    } else {
      var s := a + [d] + b;
      assert s[0] == a[0];
      assert s[1..] == a[1..] + [d] + b;
      assert d !in a[1..] by {
        forall k | 0 <= k < |a[1..]| ensures a[1..][k] != d {
          assert a[1..][k] == a[k + 1];
        }
      }
      ExplodeSplitsAtFirst(d, a[1..], b);
      assert [a[0]] + a[1..] == a;
    }
  }

  /** Splitting the delimiter-free pieces joined by the delimiter gives back the pieces. */
  lemma {:induction false} ExplodeImplode(d: char, pieces: seq<string>)
    requires |pieces| >= 1
    requires forall i :: 0 <= i < |pieces| ==> d !in pieces[i]
    ensures Explode(d, Implode([d], pieces)) == pieces
  {
    if |pieces| == 1 {
      ExplodeNoDelimiter(d, pieces[0]);
    } else {
      ExplodeImplode(d, pieces[1..]);
      ExplodeSplitsAtFirst(d, pieces[0], Implode([d], pieces[1..]));
      assert [pieces[0]] + pieces[1..] == pieces;
    }
  }

  /** The last piece of `explode` is a suffix of the string. */
  lemma {:induction false} ExplodeLastSuffix(d: char, s: string)
    ensures var pieces := Explode(d, s);
            var last := pieces[|pieces| - 1];
            |last| <= |s| && s[|s| - |last|..] == last
  {
    if s != [] {
      var tail := s[1..];
      var rest := Explode(d, tail);
      ExplodeLastSuffix(d, tail);
      var last := rest[|rest| - 1];
      assert tail[|tail| - |last|..] == s[|s| - |last|..];
      if s[0] == d {
        var pieces := [""] + rest;
        assert Explode(d, s) == pieces;
        assert pieces[|pieces| - 1] == last;
      } else if |rest| == 1 {
        ImplodeExplode(d, tail);
        assert Explode(d, s) == [[s[0]] + tail];
        assert [s[0]] + tail == s;
      } else {
        var pieces := [[s[0]] + rest[0]] + rest[1..];
        assert Explode(d, s) == pieces;
        assert pieces[|pieces| - 1] == last;
      }
    }
  }

  /**
   * The last piece of `explode` is the suffix of `s` after the last delimiter:
   * all of `s` when there is a single piece, otherwise the part that follows
   * a delimiter character.
   */
  lemma {:induction false} ExplodeLast(d: char, s: string)
    ensures var pieces := Explode(d, s);
            var last := pieces[|pieces| - 1];
            |last| <= |s| && s[|s| - |last|..] == last &&
            (|pieces| == 1 ==> last == s) &&
            (|pieces| > 1 ==> |last| < |s| && s[|s| - |last| - 1] == d)
  {
    ExplodeLastSuffix(d, s);
    if s != [] {
      var tail := s[1..];
      var rest := Explode(d, tail);
      ExplodeLast(d, tail);
      var m := |rest[|rest| - 1]|;
      if s[0] == d {
        var pieces := [""] + rest;
        assert Explode(d, s) == pieces;
        assert pieces[|pieces| - 1] == rest[|rest| - 1];
        if |rest| > 1 {
          assert tail[|tail| - m - 1] == s[|s| - m - 1];
        }
      } else if |rest| == 1 {
        assert Explode(d, s) == [[s[0]] + tail];
        assert [s[0]] + tail == s;
      } else {
        var pieces := [[s[0]] + rest[0]] + rest[1..];
        assert Explode(d, s) == pieces;
        assert pieces[|pieces| - 1] == rest[|rest| - 1];
        assert tail[|tail| - m - 1] == s[|s| - m - 1];
      }
    }
  }

  // ---------------------------------------------------------------------------
  // lcfirst

  /** ASCII lower-casing of one character, as `lcfirst` applies it. */
  function ToLower(c: char): (r: char)
  {
    if 'A' <= c <= 'Z' then (c as int + 32) as char else c
  }

  /** `lcfirst($s)`: the first character lower-cased, every other character unchanged. */
  function LcFirst(s: string): (r: string)
    ensures |r| == |s|
    ensures s != [] ==> r[0] == ToLower(s[0])
    ensures forall i :: 1 <= i < |s| ==> r[i] == s[i]
  {
    if s == [] then s else [ToLower(s[0])] + s[1..]
  }

  /** `lcfirst` never introduces a character that is not an upper-case letter's image. */
  lemma LcFirstKeepsAbsent(c: char, s: string)
    requires c !in s
    requires !('a' <= c <= 'z')
    ensures c !in LcFirst(s)
  {
    var r := LcFirst(s);
    forall i | 0 <= i < |r| ensures r[i] != c {
      if i == 0 {
        assert r[0] == ToLower(s[0]) && s[0] != c;
      }
    }
  }

  // ---------------------------------------------------------------------------
  // trim with PHP's default character list " \t\n\r\0\x0B"

  predicate IsTrimSpace(c: char) {
    c == ' ' || c == '\t' || c == '\n' || c == '\r' || c == '\0' || c == '\U{000B}'
  }

  predicate AllTrimSpace(s: string) {
    forall k :: 0 <= k < |s| ==> IsTrimSpace(s[k])
  }

  /** `ltrim($s)`: the suffix of `s` left after removing its leading trim-space. */
  function TrimLeft(s: string): (r: string)
    ensures |r| <= |s| && r == s[|s| - |r|..]
    ensures r == [] || !IsTrimSpace(r[0])
    ensures forall k :: 0 <= k < |s| - |r| ==> IsTrimSpace(s[k])
  {
    if s != [] && IsTrimSpace(s[0]) then TrimLeft(s[1..]) else s
  }

  /** `rtrim($s)`: the prefix of `s` left after removing its trailing trim-space. */
  function TrimRight(s: string): (r: string)
    ensures |r| <= |s| && r == s[..|r|]
    ensures r == [] || !IsTrimSpace(r[|r| - 1])
    ensures forall k :: |r| <= k < |s| ==> IsTrimSpace(s[k])
  {
    if s != [] && IsTrimSpace(s[|s| - 1]) then TrimRight(s[..|s| - 1]) else s
  }

  /**
   * `r` is the slice of `s` at `i` with only trim-space before and after it,
   * and it neither begins nor ends with trim-space.
   */
  predicate IsTrimOf(s: string, i: nat, r: string) {
    i + |r| <= |s| &&
    (forall k :: 0 <= k < |r| ==> r[k] == s[i + k]) &&
    (forall k :: 0 <= k < i ==> IsTrimSpace(s[k])) &&
    (forall k :: i + |r| <= k < |s| ==> IsTrimSpace(s[k])) &&
    (r == [] || (!IsTrimSpace(r[0]) && !IsTrimSpace(r[|r| - 1])))
  }

  /** `trim($s)`: `s` without its leading and trailing trim-space. */
  function Trim(s: string): (r: string)
    ensures r == [] || (!IsTrimSpace(r[0]) && !IsTrimSpace(r[|r| - 1]))
  {
    TrimRight(TrimLeft(s))
  }

  /** The trim is the slice of `s` between its leading and its trailing trim-space. */
  lemma TrimIsSlice(s: string)
    ensures IsTrimOf(s, |s| - |TrimLeft(s)|, Trim(s))
  {
    var left := TrimLeft(s);
    var i := |s| - |left|;
    var r := TrimRight(left);
    assert left == s[i..];
    assert r == left[..|r|];
    assert forall k :: 0 <= k < |r| ==> r[k] == s[i + k];
    assert forall k :: i + |r| <= k < |s| ==> s[k] == left[k - i];
  }

  /** Removing leading trim-space from `a + b` reaches into `b` only when `a` is all trim-space. */
  lemma {:induction false} TrimLeftAppend(a: string, b: string)
    ensures TrimLeft(a + b) == if TrimLeft(a) == [] then TrimLeft(b) else TrimLeft(a) + b
  {
    if a == [] {
      assert a + b == b;
    } else if IsTrimSpace(a[0]) {
      assert (a + b)[1..] == a[1..] + b;
      TrimLeftAppend(a[1..], b);
    }
  }

  /** A string that neither begins nor ends with trim-space is its own trim. */
  lemma TrimUnchanged(s: string)
    requires s == [] || (!IsTrimSpace(s[0]) && !IsTrimSpace(s[|s| - 1]))
    ensures Trim(s) == s
  {
  }

  /** A string made only of trim-space trims to the empty string. */
  lemma TrimAllSpace(s: string)
    requires AllTrimSpace(s)
    ensures Trim(s) == ""
  {
  }

  /** Leading trim-space does not change the trim. */
  lemma TrimDropsLeadingSpace(c: char, s: string)
    requires IsTrimSpace(c)
    ensures Trim([c] + s) == Trim(s)
  {
    assert ([c] + s)[1..] == s;
  }

  /** Trailing trim-space does not change the trim. */
  lemma TrimDropsTrailingSpace(s: string, c: char)
    requires IsTrimSpace(c)
    ensures Trim(s + [c]) == Trim(s)
  {
    TrimLeftAppend(s, [c]);
    var left := TrimLeft(s);
    if left == [] {
      assert [c][1..] == [];
      assert TrimLeft([c]) == [];
    } else {
      var t := left + [c];
      assert t[|t| - 1] == c && t[..|t| - 1] == left;
      assert TrimRight(t) == TrimRight(left);
    }
  }
}
