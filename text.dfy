/**
 The few Python string operations the filter relies on, over `string` (a
 sequence of characters): deleting every occurrence of one character
 (`s.replace(c, "")`), joining (`''.join(parts)`), substring containment
 (`p in s`) and the decimal rendering of an integer (`"%s" % n`).
 */
module Text {
  import opened Sequences

  /** The mask of every character but `ch`. */
  function Other(ch: char): char -> bool
  {
    (c: char) => c != ch
  }

  /** `s.replace(ch, "")` for a one-character pattern: every `ch` is deleted,
      every other character kept in its order. */
  function DeleteAll(s: string, ch: char): (r: string)
    ensures ch !in r
    ensures forall c :: c != ch ==> (c in r <==> c in s)
  {
    Filter(s, Other(ch))
  }

  /** Deleting a character that does not occur changes nothing. */
  lemma DeleteAllAbsent(s: string, ch: char)
    requires ch !in s
    ensures DeleteAll(s, ch) == s
  {
    FilterAll(s, Other(ch));
  }

  /** Deleting a character from a string that starts with `c`. */
  lemma DeleteAllCons(c: char, s: string, ch: char)
    ensures DeleteAll([c] + s, ch) == (if c == ch then [] else [c]) + DeleteAll(s, ch)
  {
    FilterCons(c, s, Other(ch));
  }

  /** Deleting a character from two strings laid end to end deletes it from each. */
  lemma DeleteAllConcat(s: string, t: string, ch: char)
    ensures DeleteAll(s + t, ch) == DeleteAll(s, ch) + DeleteAll(t, ch)
  {
    FilterConcat(s, t, Other(ch));
  }

  /** `''.join(parts)`: the parts laid end to end. */
  function Join(parts: seq<string>): (r: string)
    ensures forall c :: c in r <==> exists i :: 0 <= i < |parts| && c in parts[i]
  {
    if parts == [] then ""
    else
      var rest := Join(parts[1..]);
      assert forall c :: c in rest ==> exists i :: 0 <= i < |parts| && c in parts[i] by {
        forall c | c in rest ensures exists i :: 0 <= i < |parts| && c in parts[i] {
          var j :| 0 <= j < |parts[1..]| && c in parts[1..][j];
          assert c in parts[j + 1];
        }
      }
      parts[0] + rest
  }

  /** Joining one more part appends its characters, in order, after the others. */
  lemma {:induction false} JoinAppend(parts: seq<string>, p: string)
    ensures Join(parts + [p]) == Join(parts) + p
  {
    if parts == [] {
      assert [p][1..] == [];
    } else {
      assert (parts + [p])[1..] == parts[1..] + [p];
      JoinAppend(parts[1..], p);
    }
  }

  /** `p` occurs in `s` starting at index `i`. */
  predicate OccursAt(s: string, p: string, i: int)
  {
    0 <= i <= |s| - |p| && s[i..i + |p|] == p
  }

  /** Python's `p in s` on strings: `p` occurs as a contiguous block of `s`.
      The empty string occurs in every string. */
  predicate Contains(s: string, p: string)
  {
    exists i | 0 <= i <= |s| - |p| :: OccursAt(s, p, i)
  }

  /** A one-character pattern is contained exactly when that character occurs. */
  lemma ContainsChar(s: string, c: char)
    ensures Contains(s, [c]) <==> c in s
  {
    if c in s {
      var i :| 0 <= i < |s| && s[i] == c;
      assert OccursAt(s, [c], i);
    }
    if Contains(s, [c]) {
      var i :| 0 <= i <= |s| - 1 && OccursAt(s, [c], i);
      assert s[i] == s[i..i + 1][0] == c;
    }
  }

  predicate IsDigit(c: char) {
    '0' <= c <= '9'
  }

  function DigitChar(d: nat): (c: char)
    requires d < 10
    ensures IsDigit(c)
  {
    ('0' as int + d) as char
  }

  /** The decimal digits of a natural number, most significant first, no leading zeros. */
  function Digits(n: nat): (s: string)
    ensures s != []
    ensures forall c :: c in s ==> IsDigit(c)
  {
    if n < 10 then [DigitChar(n)] else Digits(n / 10) + [DigitChar(n % 10)]
  }

  /** `"%s" % n` for a Python int: a minus sign, then the digits of the magnitude. */
  function Decimal(n: int): string
  {
    if n < 0 then "-" + Digits(-n) else Digits(n)
  }

  /** The value of a string of decimal digits. */
  function ParseDigits(s: string): nat
    requires forall c :: c in s ==> IsDigit(c)
  {
    if s == [] then 0
    else
      var last := s[|s| - 1];
      assert last in s && IsDigit(last);
      10 * ParseDigits(s[..|s| - 1]) + (last as int - '0' as int)
  }

  lemma {:induction false} DigitsRoundTrip(n: nat)
    ensures ParseDigits(Digits(n)) == n
  {
    if n >= 10 {
      var s := Digits(n);
      assert s[..|s| - 1] == Digits(n / 10);
      DigitsRoundTrip(n / 10);
    }
  }
}
