/**
 * String operations the recommender relies on: splitting a pipe-delimited
 * genre list, ASCII lower-casing, substring search with and without case,
 * and the code-point order in which sorted() arranges strings.
 */
module Text {

  /* ---------------- Splitting on a separator ---------------- */

  /** The pieces of `s` between occurrences of `sep`, empty pieces included,
      as str.split(sep) returns them: there is always at least one piece and
      no piece contains the separator. */
  function Split(s: string, sep: char): (pieces: seq<string>)
    ensures |pieces| >= 1
    ensures forall p :: p in pieces ==> sep !in p
    decreases |s|
  {
    if s == [] then [[]]
    else
      var rest := Split(s[1..], sep);
      if s[0] == sep then [[]] + rest
      else [[s[0]] + rest[0]] + rest[1..]
  }

  /** The pieces glued back together with `sep` between them ("|".join). */
  function Join(pieces: seq<string>, sep: char): string
    requires |pieces| >= 1
    decreases |pieces|
  {
    if |pieces| == 1 then pieces[0]
    else pieces[0] + [sep] + Join(pieces[1..], sep)
  }

  /** Splitting loses nothing: joining the pieces gives the original string. */
  lemma {:induction false} JoinSplit(s: string, sep: char)
    ensures Join(Split(s, sep), sep) == s
    decreases |s|
  {
    if s != [] {
      JoinSplit(s[1..], sep);
      var rest := Split(s[1..], sep);
      if s[0] == sep {
        assert Split(s, sep)[1..] == rest;
      } else {
        var ps := Split(s, sep);
        assert ps[1..] == rest[1..];
        if |rest| == 1 {
          assert Join(ps, sep) == [s[0]] + rest[0];
        } else {
          assert rest == [rest[0]] + rest[1..];
          assert Join(ps, sep) == [s[0]] + (rest[0] + [sep] + Join(rest[1..], sep));
        }
      }
    }
  }

  /** Splitting the joined pieces gives the pieces back, provided no piece
      contains the separator. */
  lemma {:induction false} SplitJoin(pieces: seq<string>, sep: char)
    requires |pieces| >= 1
    requires forall p :: p in pieces ==> sep !in p
    ensures Split(Join(pieces, sep), sep) == pieces
    decreases |pieces|, |pieces[0]|
  {
    var p0 := pieces[0];
    if p0 == [] {
      if |pieces| > 1 {
        SplitJoin(pieces[1..], sep);
        var j := Join(pieces, sep);
        assert j == [sep] + Join(pieces[1..], sep);
        assert j[1..] == Join(pieces[1..], sep);
        assert pieces == [[]] + pieces[1..];
      }
    } else {
      var tail := [p0[1..]] + pieces[1..];
      assert p0 == [p0[0]] + p0[1..];
      assert p0 in pieces;
      assert sep !in p0[1..];
      assert forall p :: p in tail ==> p == p0[1..] || p in pieces;
      SplitJoin(tail, sep);
      var j := Join(pieces, sep);
      if |pieces| == 1 {
        assert j == p0;
        assert Join(tail, sep) == p0[1..];
        assert j[1..] == Join(tail, sep);
      } else {
        assert tail[1..] == pieces[1..];
        assert Join(tail, sep) == p0[1..] + [sep] + Join(pieces[1..], sep);
        assert j == [p0[0]] + Join(tail, sep);
        assert j[1..] == Join(tail, sep);
      }
      assert p0[0] in p0;
      var rest := Split(j[1..], sep);
      assert rest == tail;
      assert pieces == [[p0[0]] + rest[0]] + rest[1..];
    }
  }

  /* ---------------- Substring search ---------------- */

  /** `needle` occurs in `haystack` as a contiguous block (the empty needle
      occurs everywhere). */
  predicate Contains(haystack: string, needle: string)
    decreases |haystack|
  {
    needle <= haystack || (|haystack| > 0 && Contains(haystack[1..], needle))
  }

  /** `needle` starts at position `i` of `haystack`. */
  predicate OccursAt(haystack: string, needle: string, i: int)
  {
    0 <= i && i + |needle| <= |haystack| && haystack[i..i + |needle|] == needle
  }

  /** The search agrees with the positional definition of an occurrence. */
  lemma ContainsIff(haystack: string, needle: string)
    ensures Contains(haystack, needle) <==> exists i :: OccursAt(haystack, needle, i)
  {
    if i :| OccursAt(haystack, needle, i) {
      OccursAtThenContains(haystack, needle, i);
    }
    if Contains(haystack, needle) {
      var i := ContainsThenOccurs(haystack, needle);
    }
  }

  lemma {:induction false} OccursAtThenContains(haystack: string, needle: string, i: int)
    requires OccursAt(haystack, needle, i)
    ensures Contains(haystack, needle)
    decreases i
  {
    if i == 0 {
      assert needle <= haystack;
    } else {
      assert haystack[1..][i - 1..i - 1 + |needle|] == haystack[i..i + |needle|];
      OccursAtThenContains(haystack[1..], needle, i - 1);
    }
  }

  lemma {:induction false} ContainsThenOccurs(haystack: string, needle: string) returns (i: int)
    requires Contains(haystack, needle)
    ensures OccursAt(haystack, needle, i)
    decreases |haystack|
  {
    if needle <= haystack {
      i := 0;
    } else {
      var j := ContainsThenOccurs(haystack[1..], needle);
      assert haystack[j + 1..j + 1 + |needle|] == haystack[1..][j..j + |needle|];
      i := j + 1;
    }
  }

  /** An occurrence survives putting more text in front. */
  lemma {:induction false} ContainsExtendLeft(front: string, s: string, needle: string)
    requires Contains(s, needle)
    ensures Contains(front + s, needle)
    decreases |front|
  {
    if front != [] {
      ContainsExtendLeft(front[1..], s, needle);
      assert (front + s)[1..] == front[1..] + s;
    } else {
      assert front + s == s;
    }
  }

  /** Every piece that Split yields occurs in the string that was split. */
  lemma {:induction false} SplitPieceOccurs(s: string, sep: char, piece: string)
    requires piece in Split(s, sep)
    ensures Contains(s, piece)
  {
    JoinSplit(s, sep);
    JoinedPieceOccurs(Split(s, sep), sep, piece);
  }

  lemma {:induction false} JoinedPieceOccurs(pieces: seq<string>, sep: char, piece: string)
    requires |pieces| >= 1 && piece in pieces
    ensures Contains(Join(pieces, sep), piece)
    decreases |pieces|
  {
    if piece == pieces[0] {
      if |pieces| > 1 {
        assert piece <= Join(pieces, sep);
      }
    } else {
      assert piece in pieces[1..];
      JoinedPieceOccurs(pieces[1..], sep, piece);
      ContainsExtendLeft(pieces[0] + [sep], Join(pieces[1..], sep), piece);
    }
  }

  /* ---------------- Case ---------------- */

  /** ASCII lower case: 'A'..'Z' map to 'a'..'z', every other character is kept. */
  function LowerChar(c: char): char
  {
    if 'A' <= c <= 'Z' then (c as int - 'A' as int + 'a' as int) as char else c
  }

  function Lower(s: string): (r: string)
    ensures |r| == |s|
  {
    seq(|s|, i requires 0 <= i < |s| => LowerChar(s[i]))
  }

  /** Lower-casing a slice is slicing the lower-cased string. */
  lemma LowerSlice(s: string, i: nat, j: nat)
    requires i <= j <= |s|
    ensures Lower(s[i..j]) == Lower(s)[i..j]
  {
  }

  /** Lower-casing twice is lower-casing once. */
  lemma LowerIdempotent(s: string)
    ensures Lower(Lower(s)) == Lower(s)
  {
  }

  /** Substring search that ignores the case of both strings: the lower-cased
      needle starts at some position of the lower-cased haystack. */
  predicate ContainsIgnoreCase(haystack: string, needle: string): (found: bool)
    ensures found <==> exists i :: OccursAt(Lower(haystack), Lower(needle), i)
  {
    ContainsIff(Lower(haystack), Lower(needle));
    Contains(Lower(haystack), Lower(needle))
  }

  /** Ignoring case means the case of either argument does not matter. */
  lemma ContainsIgnoreCaseOfLower(haystack: string, needle: string)
    ensures ContainsIgnoreCase(haystack, needle) <==> ContainsIgnoreCase(Lower(haystack), Lower(needle))
  {
    LowerIdempotent(haystack);
    LowerIdempotent(needle);
  }

  /** An exact occurrence is also an occurrence when case is ignored. */
  lemma {:induction false} ContainsThenContainsIgnoreCase(haystack: string, needle: string)
    ensures Contains(haystack, needle) ==> ContainsIgnoreCase(haystack, needle)
  {
    if Contains(haystack, needle) {
      ContainsIff(haystack, needle);
      var i :| OccursAt(haystack, needle, i);
      LowerSlice(haystack, i, i + |needle|);
      assert OccursAt(Lower(haystack), Lower(needle), i);
    }
  }

  /* ---------------- Code-point order on strings ---------------- */

  /** Lexicographic order by character code, a proper prefix coming first:
      the order Python uses to compare str values. */
  predicate Less(a: string, b: string)
    decreases |a|
  {
    if a == [] then b != []
    else if b == [] then false
    else a[0] < b[0] || (a[0] == b[0] && Less(a[1..], b[1..]))
  }

  lemma {:induction false} LessIrreflexive(a: string)
    ensures !Less(a, a)
    decreases |a|
  {
    if a != [] {
      LessIrreflexive(a[1..]);
    }
  }

  lemma {:induction false} LessTransitive(a: string, b: string, c: string)
    requires Less(a, b) && Less(b, c)
    ensures Less(a, c)
    decreases |a|
  {
    if a != [] && b != [] && c != [] && a[0] == b[0] == c[0] {
      LessTransitive(a[1..], b[1..], c[1..]);
    }
  }

  lemma {:induction false} LessTotal(a: string, b: string)
    ensures a == b || Less(a, b) || Less(b, a)
    decreases |a|
  {
    if a != [] && b != [] && a[0] == b[0] {
      LessTotal(a[1..], b[1..]);
      if a[1..] == b[1..] {
        assert a == [a[0]] + a[1..] && b == [b[0]] + b[1..];
      }
    }
  }
}
