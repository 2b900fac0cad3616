/** The string operations of the JavaScript runtime that the models rely on. */
module Text {
  import opened Collections

  /** White space as `String.prototype.trim` understands it, line terminators included. */
  predicate IsSpace(c: char) {
    || '\t' <= c <= '\r' || c == ' ' || c == '\U{00A0}' || c == '\U{1680}' || '\U{2000}' <= c <= '\U{200A}'
    || c == '\U{2028}' || c == '\U{2029}' || c == '\U{202F}' || c == '\U{205F}' || c == '\U{3000}' || c == '\U{FEFF}'
  }

  function TrimStart(s: string): (r: string)
    ensures r == [] || !IsSpace(r[0])
    ensures |r| <= |s| && r == s[|s| - |r|..]
    ensures forall i :: 0 <= i < |s| - |r| ==> IsSpace(s[i])
  {
    if s == [] || !IsSpace(s[0]) then s else TrimStart(s[1..])
  }

  function TrimEnd(s: string): (r: string)
    ensures r == [] || !IsSpace(r[|r| - 1])
    ensures |r| <= |s| && r == s[..|r|]
    ensures forall i :: |r| <= i < |s| ==> IsSpace(s[i])
  {
    if s == [] || !IsSpace(s[|s| - 1]) then s else TrimEnd(s[..|s| - 1])
  }

  function Trim(s: string): (r: string)
    ensures r != [] ==> !IsSpace(r[0]) && !IsSpace(r[|r| - 1])
    ensures |r| <= |s|
  {
    TrimEnd(TrimStart(s))
  }

  /** Trimming changes nothing exactly when there is no surrounding white space. */
  lemma TrimKeeps(s: string)
    ensures Trim(s) == s <==> (s == [] || (!IsSpace(s[0]) && !IsSpace(s[|s| - 1])))
  {
  }

  predicate IsDigit(c: char) { '0' <= c <= '9' }

  predicate IsLowerHex(c: char) { IsDigit(c) || 'a' <= c <= 'f' }

  // ---------- Splitting and joining on one character ----------

  /** `s.split(c)`: the pieces between the separators, at least one. */
  function Split(s: string, c: char): (r: seq<string>)
    ensures r != []
    ensures forall piece :: piece in r ==> c !in piece
  {
    if s == [] then [[]]
    else
      var rest := Split(s[1..], c);
      if s[0] == c then [[]] + rest else [[s[0]] + rest[0]] + rest[1..]
  }

  /** `pieces.join(c)`. */
  function Join(pieces: seq<string>, c: char): string {
    if pieces == [] then [] else if |pieces| == 1 then pieces[0] else pieces[0] + [c] + Join(pieces[1..], c)
  }

  lemma {:induction false} JoinConcat(a: seq<string>, b: seq<string>, c: char)
    requires a != [] && b != []
    ensures Join(a + b, c) == Join(a, c) + [c] + Join(b, c)
  {
    if |a| == 1 {
      assert (a + b)[1..] == b;
    } else {
      assert (a + b)[1..] == a[1..] + b;
      JoinConcat(a[1..], b, c);
    }
  }

  lemma {:induction false} JoinAfterSplit(s: string, c: char)
    ensures Join(Split(s, c), c) == s
  {
    if s != [] {
      var rest := Split(s[1..], c);
      JoinAfterSplit(s[1..], c);
      if s[0] == c {
        assert ([[]] + rest)[1..] == rest;
      } else {
        var all := [[s[0]] + rest[0]] + rest[1..];
        assert all[1..] == rest[1..];
        if |rest| == 1 {
          assert Join(all, c) == [s[0]] + rest[0];
        } else {
          assert Join(all, c) == [s[0]] + rest[0] + [c] + Join(rest[1..], c);
          assert Join(rest, c) == rest[0] + [c] + Join(rest[1..], c);
        }
      }
    }
  }

  /** A piece without separators in front only extends the first piece. */
  lemma {:induction false} SplitPrefixed(piece: string, s: string, c: char)
    requires c !in piece
    ensures Split(piece + s, c) == [piece + Split(s, c)[0]] + Split(s, c)[1..]
  {
    if piece == [] {
      assert piece + s == s;
      assert piece + Split(s, c)[0] == Split(s, c)[0];
    } else {
      SplitPrefixed(piece[1..], s, c);
      assert (piece + s)[1..] == piece[1..] + s;
      var rest, tail := Split(piece[1..] + s, c), Split(s, c);
      assert piece[0] in piece;
      assert [piece[0]] + rest[0] == piece + tail[0];
      assert rest[1..] == tail[1..];
    }
  }

  lemma {:induction false} SplitAfterJoin(pieces: seq<string>, c: char)
    requires pieces != [] && forall piece :: piece in pieces ==> c !in piece
    ensures Split(Join(pieces, c), c) == pieces
  {
    if |pieces| == 1 {
      SplitPrefixed(pieces[0], [], c);
      assert pieces[0] + [] == pieces[0];
    } else {
      var rest := Join(pieces[1..], c);
      SplitAfterJoin(pieces[1..], c);
      assert ([c] + rest)[1..] == rest;
      assert Split([c] + rest, c) == [[]] + pieces[1..];
      SplitPrefixed(pieces[0], [c] + rest, c);
      assert pieces[0] + [c] + rest == pieces[0] + ([c] + rest);
      var tail := Split([c] + rest, c);
      assert tail[0] == [] && tail[1..] == pieces[1..] && pieces[0] + tail[0] == pieces[0];
    }
  }

  // ---------- The default order of `sort` ----------

  predicate Less(a: string, b: string) {
    b != [] && (a == [] || a[0] < b[0] || (a[0] == b[0] && Less(a[1..], b[1..])))
  }

  /** The first n characters agree, and then `a` ends, or has the smaller character. */
  ghost predicate DiffersAt(a: string, b: string, n: nat) {
    n <= |a| && n < |b| && a[..n] == b[..n] && (n == |a| || a[n] < b[n])
  }

  /** A proper prefix comes first; otherwise the first character that differs decides. */
  lemma {:induction false} LessIsFirstDifference(a: string, b: string)
    ensures Less(a, b) <==> exists n: nat :: DiffersAt(a, b, n)
  {
    if a != [] && b != [] && a[0] == b[0] {
      LessIsFirstDifference(a[1..], b[1..]);
      if n: nat :| DiffersAt(a[1..], b[1..], n) {
        assert a[..n + 1] == [a[0]] + a[1..][..n] && b[..n + 1] == [b[0]] + b[1..][..n];
        assert DiffersAt(a, b, n + 1);
      }
      if n: nat :| DiffersAt(a, b, n) {
        assert n > 0 && a[1..][..n - 1] == a[..n][1..] && b[1..][..n - 1] == b[..n][1..];
        assert DiffersAt(a[1..], b[1..], n - 1);
      }
    } else if b != [] {
      if Less(a, b) { assert DiffersAt(a, b, 0); }
      if n: nat :| DiffersAt(a, b, n) && n > 0 { assert a[..n][0] == b[..n][0]; }
    }
  }

  /** The white space of the language, one by one. */
  lemma SpaceCharacters(c: char)
    ensures IsSpace(c) <==> c as int in {
      0x9, 0xA, 0xB, 0xC, 0xD, 0x20, 0xA0, 0x1680, 0x2000, 0x2001, 0x2002, 0x2003, 0x2004, 0x2005, 0x2006, 0x2007,
      0x2008, 0x2009, 0x200A, 0x2028, 0x2029, 0x202F, 0x205F, 0x3000, 0xFEFF}
  {
  }

  const UPPER := {
    'A', 'B', 'C', 'D', 'E', 'F', 'G', 'H', 'I', 'J', 'K', 'L', 'M',
    'N', 'O', 'P', 'Q', 'R', 'S', 'T', 'U', 'V', 'W', 'X', 'Y', 'Z'
  }
  const LOWER := {
    'a', 'b', 'c', 'd', 'e', 'f', 'g', 'h', 'i', 'j', 'k', 'l', 'm',
    'n', 'o', 'p', 'q', 'r', 's', 't', 'u', 'v', 'w', 'x', 'y', 'z'
  }
  const DIGITS := {'0', '1', '2', '3', '4', '5', '6', '7', '8', '9'}
  const HEX := {'0', '1', '2', '3', '4', '5', '6', '7', '8', '9', 'a', 'b', 'c', 'd', 'e', 'f'}

  ghost predicate OnlyOf(s: string, characters: set<char>) {
    forall i :: 0 <= i < |s| ==> s[i] in characters
  }

  lemma Letters(c: char)
    ensures 'A' <= c <= 'Z' <==> c in UPPER
    ensures 'a' <= c <= 'z' <==> c in LOWER
  {
  }

  lemma HexDigits(c: char)
    ensures IsDigit(c) <==> c in DIGITS
    ensures IsLowerHex(c) <==> c in HEX
  {
  }

  lemma {:induction false} LessIsTransitive(a: string, b: string, c: string)
    requires Less(a, b) && Less(b, c)
    ensures Less(a, c)
  {
    if a != [] && a[0] == b[0] && b[0] == c[0] {
      LessIsTransitive(a[1..], b[1..], c[1..]);
    }
  }

  lemma {:induction false} LessIsTotal(a: string, b: string)
    ensures a == b || Less(a, b) || Less(b, a)
  {
    if a != [] && b != [] && a[0] == b[0] {
      LessIsTotal(a[1..], b[1..]);
      assert a == [a[0]] + a[1..] && b == [b[0]] + b[1..];
    }
  }

  predicate Ascending(s: seq<string>) {
    forall i, j :: 0 <= i < j < |s| ==> Less(s[i], s[j])
  }

  /** The elements of a set in ascending order. */
  method SortSet(elements: set<string>) returns (sorted: seq<string>)
    ensures Ascending(sorted)
    ensures forall x :: x in sorted <==> x in elements
  {
    sorted := [];
    var left := elements;
    while left != {}
      invariant left <= elements && Ascending(sorted)
      invariant forall x :: x in sorted <==> x in elements - left
      decreases |left|
    {
      var x :| x in left;
      var k := |sorted|;
      while k > 0 && Less(x, sorted[k - 1])
        invariant 0 <= k <= |sorted|
        invariant forall j :: k <= j < |sorted| ==> Less(x, sorted[j])
      {
        k := k - 1;
      }
      InsertionPoint(sorted, x, k);
      ghost var before := sorted;
      sorted := sorted[..k] + [x] + sorted[k..];
      assert forall y :: y in sorted <==> y in before || y == x by {
        assert before == before[..k] + before[k..];
      }
      left := left - {x};
    }
  }

  lemma InsertionPoint(sorted: seq<string>, x: string, k: nat)
    requires Ascending(sorted) && x !in sorted && k <= |sorted|
    requires k > 0 ==> !Less(x, sorted[k - 1])
    requires forall j :: k <= j < |sorted| ==> Less(x, sorted[j])
    ensures Ascending(sorted[..k] + [x] + sorted[k..])
  {
    if k > 0 { LessIsTotal(x, sorted[k - 1]); }
    forall j | 0 <= j < k ensures Less(sorted[j], x) {
      if j < k - 1 { LessIsTransitive(sorted[j], sorted[k - 1], x); }
    }
  }

  lemma {:induction false} LessIsIrreflexive(a: string)
    ensures !Less(a, a)
  {
    if a != [] { LessIsIrreflexive(a[1..]); }
  }

  /** Sorted without duplicates: the sequence is determined by its elements. */
  lemma {:induction false} AscendingIsCanonical(a: seq<string>, b: seq<string>)
    requires Ascending(a) && Ascending(b)
    requires forall x :: x in a <==> x in b
    ensures a == b
  {
    if a == [] {
      NonEmptyHasElement(b);
    } else {
      assert a[0] in b;
      var j :| 0 <= j < |b| && b[j] == a[0];
      assert b[0] in a;
      var i :| 0 <= i < |a| && a[i] == b[0];
      if i > 0 && j > 0 {
        LessIsTransitive(a[0], b[0], a[0]);
        LessIsIrreflexive(a[0]);
      }
      assert a[0] == b[0];
      forall x ensures x in a[1..] <==> x in b[1..] {
        LessIsIrreflexive(x);
        assert a == [a[0]] + a[1..] && b == [b[0]] + b[1..];
        assert x in a <==> x == a[0] || x in a[1..];
        assert x in b <==> x == b[0] || x in b[1..];
      }
      AscendingIsCanonical(a[1..], b[1..]);
    }
  }
}
