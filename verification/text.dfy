/** String helpers the source takes from JavaScript's `String.prototype`:
    case folding, `includes`, `split` and `Array.prototype.join`.
    Strings are sequences of characters; case folding covers ASCII only. */
module Text {

  import opened Wrappers

  predicate IsAsciiUpper(c: char) { 'A' <= c <= 'Z' }

  predicate IsAsciiLower(c: char) { 'a' <= c <= 'z' }

  predicate IsAsciiDigit(c: char) { '0' <= c <= '9' }

  /** The characters the regular expression class `[a-z0-9]` with the `i`
      flag matches: ASCII letters of either case and ASCII digits. */
  predicate IsAsciiAlnum(c: char) { IsAsciiUpper(c) || IsAsciiLower(c) || IsAsciiDigit(c) }

  function LowerChar(c: char): (r: char)
    ensures IsAsciiUpper(c) ==> IsAsciiLower(r)
    ensures !IsAsciiUpper(c) ==> r == c
  {
    if IsAsciiUpper(c) then (c as int - 'A' as int + 'a' as int) as char else c
  }

  function UpperChar(c: char): (r: char)
    ensures IsAsciiLower(c) ==> IsAsciiUpper(r)
    ensures !IsAsciiLower(c) ==> r == c
  {
    if IsAsciiLower(c) then (c as int - 'a' as int + 'A' as int) as char else c
  }

  /** The characters JavaScript's regular-expression `.` does not match. */
  predicate IsLineTerminator(c: char)
  {
    c == '\n' || c == '\r' || c as int == 0x2028 || c as int == 0x2029
  }

  /** The first index at or after `k` that holds a line terminator, or `|s|`:
      where a regular-expression `.*` starting at `k` stops. */
  function LineEnd(s: string, k: nat): (e: nat)
    requires k <= |s|
    ensures k <= e <= |s|
    ensures e < |s| ==> IsLineTerminator(s[e])
    ensures forall m :: k <= m < e ==> !IsLineTerminator(s[m])
    decreases |s| - k
  {
    if k == |s| || IsLineTerminator(s[k]) then k else LineEnd(s, k + 1)
  }

  /** A line end found in `s[1..]` is one place further on in `s`. */
  lemma LineEndShift(s: string, k: nat)
    requires 0 < |s| && k <= |s| - 1
    ensures LineEnd(s[1..], k) + 1 == LineEnd(s, k + 1)
    decreases |s| - k
  {
    if k < |s| - 1 && !IsLineTerminator(s[k + 1]) {
      LineEndShift(s, k + 1);
    }
  }

  /** `toLowerCase`, restricted to ASCII letters. */
  function Lower(s: string): (r: string)
    ensures |r| == |s|
    ensures forall i :: 0 <= i < |s| ==> r[i] == LowerChar(s[i])
  {
    seq(|s|, i requires 0 <= i < |s| => LowerChar(s[i]))
  }

  lemma LowerOfUpper(c: char)
    ensures LowerChar(UpperChar(c)) == LowerChar(c)
  {
  }

  /** A string without upper-case letters is its own lower-case form. */
  lemma LowerOfLowerCase(s: string)
    requires forall k :: 0 <= k < |s| ==> !IsAsciiUpper(s[k])
    ensures Lower(s) == s
  {
  }

  /** `s` holds `p` starting at index `i`. */
  ghost predicate OccursAt(s: string, p: string, i: int)
  {
    0 <= i && i + |p| <= |s| && s[i..i + |p|] == p
  }

  /** Occurrences of `p` in a non-empty `s` past index 0 are the occurrences
      of `p` in `s[1..]`, shifted by one. */
  lemma OccursShift(s: string, p: string)
    requires |s| > 0
    ensures forall j {:trigger OccursAt(s[1..], p, j)} :: OccursAt(s[1..], p, j) <==> j >= 0 && OccursAt(s, p, j + 1)
    ensures forall j {:trigger OccursAt(s, p, j)} :: j >= 1 ==> (OccursAt(s, p, j) <==> OccursAt(s[1..], p, j - 1))
    ensures OccursAt(s, p, 0) <==> p <= s
  {
    forall j | OccursAt(s[1..], p, j) ensures OccursAt(s, p, j + 1) {
      assert s[1..][j..j + |p|] == s[j + 1..j + 1 + |p|];
    }
    forall j | j >= 0 && OccursAt(s, p, j + 1) ensures OccursAt(s[1..], p, j) {
      assert s[1..][j..j + |p|] == s[j + 1..j + 1 + |p|];
    }
  }

  /** `s.indexOf(p)`: the first index at which `p` occurs in `s`, if any. */
  function IndexOf(s: string, p: string): (r: Option<nat>)
    ensures r.Some? ==> OccursAt(s, p, r.value)
    ensures r.Some? ==> forall j :: 0 <= j < r.value ==> !OccursAt(s, p, j)
    ensures r.None? ==> forall j :: !OccursAt(s, p, j)
    decreases |s|
  {
    if |p| > |s| then None
    else if p <= s then Some(0)
    else
      OccursShift(s, p);
      match IndexOf(s[1..], p)
      case Some(k) => Some(k + 1)
      case None => None
  }

  /** `s.includes(p)`: `p` occurs somewhere in `s`. */
  predicate Contains(s: string, p: string)
  {
    IndexOf(s, p).Some?
  }

  /** A pattern longer than the text never occurs in it. */
  lemma ContainsNeedsRoom(s: string, p: string)
    requires Contains(s, p)
    ensures |p| <= |s|
  {
  }

  /** An occurrence at a known index is enough for `includes`. */
  lemma ContainsAt(s: string, p: string, i: int)
    requires OccursAt(s, p, i)
    ensures Contains(s, p)
  {
  }

  /** `s.split(c)`: the pieces of `s` between occurrences of `c`. */
  function Split(s: string, c: char): (parts: seq<string>)
    ensures |parts| >= 1
    ensures forall k :: 0 <= k < |parts| ==> c !in parts[k]
    decreases |s|
  {
    if |s| == 0 then [""]
    else
      var rest := Split(s[1..], c);
      if s[0] == c then [""] + rest
      else [[s[0]] + rest[0]] + rest[1..]
  }

  /** `parts.join(c)`; the empty array joins to the empty string. */
  function Join(parts: seq<string>, c: char): string
    decreases |parts|
  {
    if |parts| == 0 then ""
    else if |parts| == 1 then parts[0]
    else parts[0] + [c] + Join(parts[1..], c)
  }

  /** Joining the pieces of a split restores the original string. */
  lemma {:induction false} JoinSplit(s: string, c: char)
    ensures Join(Split(s, c), c) == s
    decreases |s|
  {
    if |s| > 0 {
      var rest := Split(s[1..], c);
      JoinSplit(s[1..], c);
      if s[0] == c {
        assert Split(s, c) == [""] + rest;
        assert Join(Split(s, c), c) == "" + [c] + Join(rest, c);
      } else {
        var parts := [[s[0]] + rest[0]] + rest[1..];
        assert Split(s, c) == parts;
        if |rest| == 1 {
          assert Join(parts, c) == [s[0]] + rest[0];
        } else {
          assert parts[1..] == rest[1..];
          assert Join(rest, c) == rest[0] + [c] + Join(rest[1..], c);
          assert Join(parts, c) == ([s[0]] + rest[0]) + [c] + Join(rest[1..], c);
        }
      }
    }
  }

  /** A string without the separator splits into itself alone. */
  lemma {:induction false} SplitWithoutSeparator(s: string, c: char)
    requires c !in s
    ensures Split(s, c) == [s]
    decreases |s|
  {
    if |s| > 0 {
      assert c !in s[1..];
      SplitWithoutSeparator(s[1..], c);
      assert [s[0]] + s[1..] == s;
    }
  }

  /** One step of `Split`: the first character either ends the first piece
      or joins it. */
  lemma SplitCons(x: char, t: string, c: char)
    ensures Split([x] + t, c) ==
              (if x == c then [""] + Split(t, c)
               else [[x] + Split(t, c)[0]] + Split(t, c)[1..])
  {
    assert ([x] + t)[0] == x;
    assert ([x] + t)[1..] == t;
  }

  /** Splitting at one occurrence of the separator splits each side on its own. */
  lemma {:induction false} SplitAround(a: string, c: char, b: string)
    ensures Split(a + [c] + b, c) == Split(a, c) + Split(b, c)
    decreases |a|
  {
    var rb := Split(b, c);
    if |a| == 0 {
      assert a + [c] + b == [c] + b;
      SplitCons(c, b, c);
    } else {
      var x, a' := a[0], a[1..];
      assert a == [x] + a';
      assert a + [c] + b == [x] + (a' + [c] + b);
      SplitAround(a', c, b);
      SplitAroundCons(x, a', c, b);
    }
  }

  /** The inductive step of `SplitAround`: putting one more character in
      front of the left side. */
  lemma SplitAroundCons(x: char, a: string, c: char, b: string)
    requires Split(a + [c] + b, c) == Split(a, c) + Split(b, c)
    ensures Split([x] + (a + [c] + b), c) == Split([x] + a, c) + Split(b, c)
  {
    SplitCons(x, a + [c] + b, c);
    SplitCons(x, a, c);
    ConsPieces(x, c, Split(a, c), Split(b, c));
  }

  /** The piece lists one step of `Split` builds, in front of a
      concatenation. */
  lemma ConsPieces(x: char, c: char, ra: seq<string>, rb: seq<string>)
    requires |ra| >= 1
    ensures (if x == c then [""] + (ra + rb) else [[x] + (ra + rb)[0]] + (ra + rb)[1..])
            == (if x == c then [""] + ra else [[x] + ra[0]] + ra[1..]) + rb
  {
    if x == c {
      assert [""] + (ra + rb) == ([""] + ra) + rb;
    } else {
      MergeHead([x], ra, rb);
    }
  }

  /** Extending the first piece of a concatenation of piece lists. */
  lemma MergeHead(x: string, ra: seq<string>, rb: seq<string>)
    requires |ra| >= 1
    ensures [x + (ra + rb)[0]] + (ra + rb)[1..] == ([x + ra[0]] + ra[1..]) + rb
  {
    assert (ra + rb)[0] == ra[0];
    assert (ra + rb)[1..] == ra[1..] + rb;
  }
}
