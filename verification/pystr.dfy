/**
 Python string built-ins used by the knocking code, over `seq<char>`:
 `str.lower()` (ASCII letters only), `sep in s` / `t in s`, `s.split(sep)` for a
 one-character separator, `s.replace(t, "")`, and `int(s)` on the grammar
 "optional sign, then one or more ASCII digits".
 */
module PyStr {
  import opened Optional

  // ---------------------------------------------------------------- lower()

  function LowerChar(c: char): char {
    if 'A' <= c <= 'Z' then (c as int + 32) as char else c
  }

  /** `s.lower()` on ASCII text: every character is mapped on its own. */
  function Lower(s: string): (r: string)
    ensures |r| == |s|
    ensures forall i | 0 <= i < |s| :: r[i] == LowerChar(s[i])
  {
    if |s| == 0 then [] else [LowerChar(s[0])] + Lower(s[1..])
  }

  lemma LowerAppend(a: string, b: string)
    ensures Lower(a + b) == Lower(a) + Lower(b)
  {
  }

  /** Characters that `lower()` leaves alone keep the whole string unchanged. */
  lemma LowerFixed(s: string)
    requires forall i | 0 <= i < |s| :: !('A' <= s[i] <= 'Z')
    ensures Lower(s) == s
  {
  }

  // ---------------------------------------------------------------- t in s

  predicate OccursAt(t: string, s: string, i: nat) {
    i + |t| <= |s| && s[i..i + |t|] == t
  }

  /** Python's `t in s` for strings. */
  predicate Occurs(t: string, s: string) {
    exists i: nat | i <= |s| :: OccursAt(t, s, i)
  }

  /** A string none of whose characters is `t[0]` cannot contain `t`. */
  lemma NotOccursWithoutHead(t: string, s: string)
    requires |t| > 0
    requires t[0] !in s
    ensures !Occurs(t, s)
  {
  }

  lemma OccursSuffix(a: string, t: string)
    ensures Occurs(t, a + t)
  {
    assert (a + t)[|a|..|a| + |t|] == t;
    assert OccursAt(t, a + t, |a|);
  }

  // ---------------------------------------------------------------- split()

  lemma AppendEmpty(s: string)
    ensures s + [] == s
  {
  }

  /** The position of the first `c` in `s`. */
  function IndexOf(s: string, c: char): (i: nat)
    requires c in s
    ensures i < |s| && s[i] == c && c !in s[..i]
  {
    if s[0] == c then 0
    else
      assert c in s[1..] by { assert s == [s[0]] + s[1..]; }
      var j := IndexOf(s[1..], c);
      assert s[..j + 1] == [s[0]] + s[1..][..j];
      j + 1
  }

  /** The number of occurrences of `c` in `s`. */
  function Count(s: string, c: char): nat {
    if |s| == 0 then 0 else (if s[0] == c then 1 else 0) + Count(s[1..], c)
  }

  lemma CountAppend(a: string, b: string, c: char)
    ensures Count(a + b, c) == Count(a, c) + Count(b, c)
  {
    if |a| > 0 {
      assert (a + b)[1..] == a[1..] + b;
      CountAppend(a[1..], b, c);
    } else {
      assert a + b == b;
    }
  }

  lemma CountAbsent(s: string, c: char)
    ensures c !in s <==> Count(s, c) == 0
  {
    if |s| > 0 {
      assert s == [s[0]] + s[1..];
      CountAbsent(s[1..], c);
    }
  }

  /** Inverse of `Split`: the parts glued back together with the separator. */
  function Join(parts: seq<string>, sep: char): string
    requires |parts| >= 1
  {
    if |parts| == 1 then parts[0] else parts[0] + [sep] + Join(parts[1..], sep)
  }

  /**
   Python's `s.split(sep)` for a one-character separator: the pieces between
   separators, in order, including empty ones.
   */
  function Split(s: string, sep: char): (parts: seq<string>)
    ensures |parts| == Count(s, sep) + 1
    ensures forall k | 0 <= k < |parts| :: sep !in parts[k]
    ensures Join(parts, sep) == s
    ensures sep in s ==> parts[0] == s[..IndexOf(s, sep)]
    decreases |s|
  {
    if sep !in s then
      CountAbsent(s, sep);
      [s]
    else
      var i := IndexOf(s, sep);
      var rest := Split(s[i + 1..], sep);
      SplitStep(s, sep, i, rest);
      [s[..i]] + rest
  }

  /** The text before the first separator in front of the parts of the text after it. */
  lemma SplitStep(s: string, sep: char, i: nat, rest: seq<string>)
    requires i < |s| && s[i] == sep && sep !in s[..i]
    requires |rest| == Count(s[i + 1..], sep) + 1
    requires forall k | 0 <= k < |rest| :: sep !in rest[k]
    requires Join(rest, sep) == s[i + 1..]
    ensures |[s[..i]] + rest| == Count(s, sep) + 1
    ensures forall k | 0 <= k < |[s[..i]] + rest| :: sep !in ([s[..i]] + rest)[k]
    ensures Join([s[..i]] + rest, sep) == s
  {
    CountAtFirst(s, sep, i);
    JoinCons(s[..i], rest, sep);
    assert s[..i] + [sep] + s[i + 1..] == s;
    var parts := [s[..i]] + rest;
    assert forall k | 1 <= k < |parts| :: parts[k] == rest[k - 1];
  }

  lemma CountAtFirst(s: string, c: char, i: nat)
    requires i < |s| && s[i] == c && c !in s[..i]
    ensures Count(s, c) == 1 + Count(s[i + 1..], c)
  {
    assert s == s[..i] + ([c] + s[i + 1..]);
    CountAppend(s[..i], [c] + s[i + 1..], c);
    CountAppend([c], s[i + 1..], c);
    assert Count([c], c) == 1 by { assert [c][1..] == []; }
    CountAbsent(s[..i], c);
  }

  lemma JoinCons(a: string, rest: seq<string>, sep: char)
    requires |rest| >= 1
    ensures Join([a] + rest, sep) == a + [sep] + Join(rest, sep)
  {
    assert ([a] + rest)[1..] == rest;
  }

  /** Splitting text that holds exactly one separator gives the two sides. */
  lemma SplitOnce(a: string, sep: char, b: string)
    requires sep !in a && sep !in b
    ensures Split(a + [sep] + b, sep) == [a, b]
  {
    var s := a + [sep] + b;
    assert s[|a|] == sep;
    assert s[..|a|] == a;
    var i := IndexOf(s, sep);
    assert i == |a|;
    assert s[..i] == a;
    assert s[i + 1..] == b;
  }

  /** The position of a `c` with none before it is the first position. */
  lemma IndexOfAt(s: string, c: char, j: nat)
    requires j < |s| && s[j] == c && c !in s[..j]
    ensures IndexOf(s, c) == j
  {
  }

  /** Text up to the first separator is the first part; the rest splits on. */
  lemma SplitHead(a: string, sep: char, b: string)
    requires sep !in a
    ensures Split(a + [sep] + b, sep) == [a] + Split(b, sep)
  {
    var s := a + [sep] + b;
    assert s[..|a|] == a;
    IndexOfAt(s, sep, |a|);
    assert s[|a| + 1..] == b;
  }

  /** `head:field[:...]` splits into `head`, `field`, and possibly more. */
  lemma SplitFields(head: string, sep: char, field: string, tail: string)
    requires sep !in head && sep !in field
    requires tail == [] || tail[0] == sep
    ensures |Split(head + [sep] + field + tail, sep)| >= 2
    ensures Split(head + [sep] + field + tail, sep)[0] == head
    ensures Split(head + [sep] + field + tail, sep)[1] == field
  {
    assert head + [sep] + field + tail == head + [sep] + (field + tail);
    SplitHead(head, sep, field + tail);
    SplitFirst(field, sep, tail);
  }

  /** Text without the separator, then nothing or a separator: the first part is that text. */
  lemma SplitFirst(field: string, sep: char, tail: string)
    requires sep !in field
    requires tail == [] || tail[0] == sep
    ensures Split(field + tail, sep)[0] == field
  {
    if tail == [] {
      assert field + tail == field;
    } else {
      assert field + tail == field + [sep] + tail[1..];
      SplitHead(field, sep, tail[1..]);
    }
  }

  // ---------------------------------------------------------------- replace(t, "")

  /**
   Python's `s.replace(t, "")`: one left-to-right pass deleting non-overlapping
   occurrences of `t`. Text that only appears once others are deleted stays.
   */
  function Remove(s: string, t: string): (r: string)
    requires |t| > 0
    ensures |r| <= |s|
    ensures forall k | 0 <= k < |r| :: r[k] in s
    decreases |s|
  {
    if |s| < |t| then s
    else if s[..|t|] == t then Remove(s[|t|..], t)
    else [s[0]] + Remove(s[1..], t)
  }

  /** With no occurrence of `t`, nothing is deleted. */
  lemma {:induction false} RemoveAbsent(s: string, t: string)
    requires |t| > 0 && !Occurs(t, s)
    ensures Remove(s, t) == s
    decreases |s|
  {
    if |s| >= |t| {
      assert !OccursAt(t, s, 0);
      assert !Occurs(t, s[1..]) by {
        forall i: nat | OccursAt(t, s[1..], i)
          ensures false
        {
          assert s[i + 1..i + 1 + |t|] == s[1..][i..i + |t|];
          assert OccursAt(t, s, i + 1);
        }
      }
      RemoveAbsent(s[1..], t);
      assert s == [s[0]] + s[1..];
    }
  }

  /** A trailing `t` after text free of `t[0]` is exactly what gets deleted. */
  lemma {:induction false} RemoveSuffix(a: string, t: string)
    requires |t| > 0 && t[0] !in a
    ensures Remove(a + t, t) == a
    decreases |a|
  {
    var s := a + t;
    if |a| == 0 {
      assert s[..|t|] == t;
      assert s[|t|..] == [];
    } else {
      assert s[..|t|][0] == a[0] != t[0];
      assert s[1..] == a[1..] + t;
      RemoveSuffix(a[1..], t);
      assert a == [a[0]] + a[1..];
    }
  }

  /**
   The first occurrence of `t` is deleted and the pass goes on after it, so
   every later occurrence is deleted too: `"80udpudp"` loses both.
   */
  lemma {:induction false} RemoveFirst(a: string, t: string, b: string)
    requires |t| > 0
    requires NoOccurrenceBefore(t, a + t + b, |a|)
    ensures Remove(a + t + b, t) == a + Remove(b, t)
    decreases |a|
  {
    if |a| == 0 {
      RemoveLeading(t, b);
    } else {
      assert !OccursAt(t, a + t + b, 0);
      NoOccurrenceShift(a, t, b);
      RemoveFirst(a[1..], t, b);
      ConsSplit(a, t, b);
      RemoveCons(a + t + b, t, a[0], a[1..] + t + b, a[1..], Remove(b, t));
    }
  }

  lemma RemoveLeading(t: string, b: string)
    requires |t| > 0
    ensures Remove(t + b, t) == Remove(b, t)
  {
    var s := t + b;
    assert s[..|t|] == t && s[|t|..] == b;
    RemoveStep(s, t);
  }

  /** A first character that does not start `t` is kept, then the pass goes on. */
  lemma RemoveCons(s: string, t: string, x: char, tail: string, rest: string, r: string)
    requires |t| > 0 && |s| >= |t| && s[..|t|] != t
    requires s[0] == x && s[1..] == tail
    requires Remove(tail, t) == rest + r
    ensures Remove(s, t) == [x] + rest + r
  {
    RemoveStep(s, t);
  }

  lemma ConsSplit(a: string, t: string, b: string)
    requires |a| > 0
    ensures (a + t + b)[0] == a[0] && (a + t + b)[1..] == a[1..] + t + b
    ensures [a[0]] + a[1..] == a
  {
  }

  lemma RemoveStep(s: string, t: string)
    requires |t| > 0 && |s| >= |t|
    ensures s[..|t|] == t ==> Remove(s, t) == Remove(s[|t|..], t)
    ensures s[..|t|] != t ==> Remove(s, t) == [s[0]] + Remove(s[1..], t)
  {
  }

  /** No occurrence of `t` in `s` starts before position `n`. */
  predicate NoOccurrenceBefore(t: string, s: string, n: nat) {
    forall i: nat | i < n :: !OccursAt(t, s, i)
  }

  lemma NoOccurrenceShift(a: string, t: string, b: string)
    requires |a| > 0 && NoOccurrenceBefore(t, a + t + b, |a|)
    ensures NoOccurrenceBefore(t, a[1..] + t + b, |a| - 1)
  {
    var s := a + t + b;
    assert s[1..] == a[1..] + t + b;
    forall i: nat | i < |a| - 1
      ensures !OccursAt(t, a[1..] + t + b, i)
    {
      assert !OccursAt(t, s, i + 1);
      if i + |t| <= |s| - 1 {
        assert s[1..][i..i + |t|] == s[i + 1..i + 1 + |t|];
      }
    }
  }

  /** A character that is not in `t` survives the deletion. */
  lemma {:induction false} RemoveKeeps(s: string, t: string, c: char)
    requires |t| > 0 && c in s && c !in t
    ensures c in Remove(s, t)
    decreases |s|
  {
    if |s| < |t| {
    } else if s[..|t|] == t {
      assert c in s[|t|..] by {
        assert s == s[..|t|] + s[|t|..];
      }
      RemoveKeeps(s[|t|..], t, c);
    } else if s[0] != c {
      assert c in s[1..] by {
        var k :| 0 <= k < |s| && s[k] == c;
        assert s[1..][k - 1] == c;
      }
      RemoveKeeps(s[1..], t, c);
    }
  }

  /** The classic surprise: deleting `udp` once from "uudpdp" leaves "udp". */
  lemma RemoveIsSinglePass()
    ensures Remove("uudpdp", "udp") == "udp"
  {
    assert "uudpdp"[..3] == "uud";
    assert "uudpdp"[1..] == "udpdp";
    assert "udpdp"[..3] == "udp";
    assert "udpdp"[3..] == "dp";
  }

  // ---------------------------------------------------------------- int()

  predicate IsDigit(c: char) {
    '0' <= c <= '9'
  }

  predicate AllDigits(s: string) {
    forall i | 0 <= i < |s| :: IsDigit(s[i])
  }

  /** The literals the model's `int()` accepts: a sign or not, then ASCII digits. */
  predicate IsIntLiteral(s: string) {
    if |s| > 0 && (s[0] == '-' || s[0] == '+') then |s| > 1 && AllDigits(s[1..])
    else |s| > 0 && AllDigits(s)
  }

  /** The value of a non-empty run of decimal digits, read right to left. */
  function Digits(s: string): (r: Option<nat>)
    ensures r.Some? <==> |s| > 0 && AllDigits(s)
  {
    if |s| == 0 || !IsDigit(s[|s| - 1]) then None
    else
      var d := s[|s| - 1] as int - '0' as int;
      if |s| == 1 then Some(d)
      else
        match Digits(s[..|s| - 1])
        case None => None
        case Some(v) => Some(10 * v + d)
  }

  /** A leading zero does not change the value of a digit run: `int("007") == 7`. */
  lemma {:induction false} DigitsLeadingZero(s: string)
    requires |s| > 0 && AllDigits(s)
    ensures Digits("0" + s) == Digits(s)
    decreases |s|
  {
    var z := "0" + s;
    assert z[|z| - 1] == s[|s| - 1];
    if |s| == 1 {
      assert z[..|z| - 1] == "0";
    } else {
      assert z[..|z| - 1] == "0" + s[..|s| - 1];
      DigitsLeadingZero(s[..|s| - 1]);
    }
  }

  /** Python's `int(s)` on the restricted grammar; None stands for ValueError. */
  function ParseInt(s: string): (r: Option<int>)
    ensures r.Some? <==> IsIntLiteral(s)
  {
    if |s| > 0 && s[0] == '-' then
      match Digits(s[1..])
      case None => None
      case Some(v) => var n: int := v; Some(-n)
    else if |s| > 0 && s[0] == '+' then
      match Digits(s[1..])
      case None => None
      case Some(v) => Some(v)
    else
      match Digits(s)
      case None => None
      case Some(v) => Some(v)
  }

  /** A '+' sign is ignored and a '-' sign negates: `int("+80") == 80`, `int("-0") == 0`. */
  lemma ParseSigned(s: string)
    requires |s| > 0 && AllDigits(s)
    ensures ParseInt("+" + s) == ParseInt(s)
    ensures ParseInt("-" + s) == Some(-ParseInt(s).value)
  {
    assert ("+" + s)[1..] == s;
    assert ("-" + s)[1..] == s;
    assert IsDigit(s[0]);
  }

  function DigitChar(d: nat): char
    requires d < 10
  {
    ('0' as int + d) as char
  }

  /** Decimal rendering of a natural number, most significant digit first. */
  function ShowNat(n: nat): (r: string)
    ensures |r| > 0 && AllDigits(r)
  {
    (if n < 10 then "" else ShowNat(n / 10)) + [DigitChar(n % 10)]
  }

  /** Decimal rendering of an integer, as Python's `str(n)`. */
  function ShowInt(n: int): string {
    if n < 0 then "-" + ShowNat(-n) else ShowNat(n)
  }

  lemma {:induction false} DigitsShowNat(n: nat)
    ensures Digits(ShowNat(n)) == Some(n)
  {
    var s := ShowNat(n);
    assert s[|s| - 1] == DigitChar(n % 10);
    if n >= 10 {
      assert s[..|s| - 1] == ShowNat(n / 10);
      DigitsShowNat(n / 10);
    }
  }

  /** `int(str(n)) == n`: the parser reads back every rendered integer. */
  lemma ParseShowInt(n: int)
    ensures ParseInt(ShowInt(n)) == Some(n)
  {
    if n < 0 {
      DigitsShowNat(-n);
      assert ShowInt(n)[1..] == ShowNat(-n);
    } else {
      DigitsShowNat(n);
    }
  }

  /** Text holding a letter is not an integer literal. */
  lemma LetterNotInt(s: string, c: char)
    requires c in s && !IsDigit(c) && c != '-' && c != '+'
    ensures !IsIntLiteral(s)
  {
    var k :| 0 <= k < |s| && s[k] == c;
    if k > 0 {
      assert s[1..][k - 1] == c;
    }
  }

  /** A rendered integer holds no letters, no ':' and no 'u', 't'. */
  lemma ShowIntChars(n: int)
    ensures forall i | 0 <= i < |ShowInt(n)| :: ShowInt(n)[i] == '-' || IsDigit(ShowInt(n)[i])
  {
  }

  lemma ShowIntAvoids(n: int, c: char)
    requires c != '-' && !IsDigit(c)
    ensures c !in ShowInt(n)
  {
    ShowIntChars(n);
  }

  lemma LowerShowInt(n: int)
    ensures Lower(ShowInt(n)) == ShowInt(n)
  {
    ShowIntChars(n);
    LowerFixed(ShowInt(n));
  }
}
