/** The string operations the wallet's error handling is written with. */
module Text {
  import opened Words

  predicate OccursAt(s: string, p: string, i: nat) {
    i + |p| <= |s| && s[i..i + |p|] == p
  }

  predicate Contains(s: string, p: string) {
    exists i | 0 <= i <= |s| :: OccursAt(s, p, i)
  }

  /** Index of the first occurrence. */
  function Find(s: string, p: string): (r: Option<nat>)
    ensures r.Some? ==> r.value + |p| <= |s|
  {
    FindFrom(s, p, 0)
  }

  function FindFrom(s: string, p: string, from: nat): (r: Option<nat>)
    requires from <= |s| + 1
    ensures r.Some? ==> from <= r.value && r.value + |p| <= |s|
    decreases |s| + 1 - from
  {
    if from > |s| then None
    else if OccursAt(s, p, from) then Some(from)
    else FindFrom(s, p, from + 1)
  }

  /** Index of the last occurrence. */
  function FindLast(s: string, p: string): (r: Option<nat>)
    ensures r.Some? ==> r.value + |p| <= |s|
  {
    FindLastUpTo(s, p, |s|)
  }

  function FindLastUpTo(s: string, p: string, upTo: nat): (r: Option<nat>)
    ensures r.Some? ==> r.value <= upTo && r.value + |p| <= |s|
  {
    if OccursAt(s, p, upTo) then Some(upTo)
    else if upTo == 0 then None
    else FindLastUpTo(s, p, upTo - 1)
  }

  /** The text before and after the first occurrence of `p`. */
  function SplitOnce(s: string, p: string): Option<(string, string)> {
    match Find(s, p)
    case None => None
    case Some(i) => Some((s[..i], s[i + |p|..]))
  }

  /** The text before and after the last occurrence of `p`. */
  function SplitLast(s: string, p: string): Option<(string, string)> {
    match FindLast(s, p)
    case None => None
    case Some(i) => Some((s[..i], s[i + |p|..]))
  }

  function StripPrefix(s: string, p: string): Option<string> {
    if p <= s then Some(s[|p|..]) else None
  }

  /** The White_Space property of Unicode. */
  predicate IsWhitespace(c: char) {
    || '\U{9}' <= c <= '\U{D}' || c == ' ' || c == '\U{85}' || c == '\U{A0}' || c == '\U{1680}'
    || '\U{2000}' <= c <= '\U{200A}' || c == '\U{2028}' || c == '\U{2029}' || c == '\U{202F}'
    || c == '\U{205F}' || c == '\U{3000}'
  }

  function TrimStart(s: string): string {
    if s != [] && IsWhitespace(s[0]) then TrimStart(s[1..]) else s
  }

  function TrimEnd(s: string): string {
    if s != [] && IsWhitespace(s[|s| - 1]) then TrimEnd(s[..|s| - 1]) else s
  }

  function Trim(s: string): string {
    TrimEnd(TrimStart(s))
  }

  function LowerChar(c: char): char {
    if 'A' <= c <= 'Z' then (c as int + 32) as char else c
  }

  /** ASCII lowercasing. */
  function Lower(s: string): (r: string)
    ensures |r| == |s| && forall i | 0 <= i < |s| :: r[i] == LowerChar(s[i])
  {
    seq(|s|, i requires 0 <= i < |s| => LowerChar(s[i]))
  }

  function Join(parts: seq<string>, separator: string): string {
    if parts == [] then ""
    else if |parts| == 1 then parts[0]
    else parts[0] + separator + Join(parts[1..], separator)
  }

  // ---------- Facts ----------

  /** `Find` finds the first occurrence, and fails exactly when there is none. */
  lemma FindIsFirst(s: string, p: string)
    ensures Find(s, p).None? <==> !Contains(s, p)
    ensures Find(s, p).Some? ==>
              OccursAt(s, p, Find(s, p).value) && forall i | 0 <= i < Find(s, p).value :: !OccursAt(s, p, i)
  {
    FindFromIsFirst(s, p, 0);
  }

  lemma {:induction false} FindFromIsFirst(s: string, p: string, from: nat)
    requires from <= |s| + 1
    ensures var r := FindFrom(s, p, from);
            && (r.None? <==> forall i | from <= i <= |s| :: !OccursAt(s, p, i))
            && (r.Some? ==> OccursAt(s, p, r.value) && forall i | from <= i < r.value :: !OccursAt(s, p, i))
    decreases |s| + 1 - from
  {
    if from <= |s| && !OccursAt(s, p, from) {
      FindFromIsFirst(s, p, from + 1);
    }
  }

  /** `FindLast` finds the last occurrence, and fails exactly when there is none. */
  lemma FindLastIsLast(s: string, p: string)
    ensures FindLast(s, p).None? <==> !Contains(s, p)
    ensures FindLast(s, p).Some? ==>
              OccursAt(s, p, FindLast(s, p).value) && forall i | FindLast(s, p).value < i :: !OccursAt(s, p, i)
  {
    FindLastUpToIsLast(s, p, |s|);
  }

  lemma {:induction false} FindLastUpToIsLast(s: string, p: string, upTo: nat)
    ensures var r := FindLastUpTo(s, p, upTo);
            && (r.None? <==> forall i | 0 <= i <= upTo :: !OccursAt(s, p, i))
            && (r.Some? ==> OccursAt(s, p, r.value) && forall i | r.value < i <= upTo :: !OccursAt(s, p, i))
  {
    if !OccursAt(s, p, upTo) && upTo > 0 {
      FindLastUpToIsLast(s, p, upTo - 1);
    }
  }

  lemma ContainsAt(s: string, p: string, i: nat)
    requires OccursAt(s, p, i)
    ensures Contains(s, p)
  {
  }

  /** A needle of one character occurs where that character is. */
  lemma SingleOccurs(s: string, p: string, i: nat)
    requires |p| == 1 && i < |s|
    ensures OccursAt(s, p, i) <==> s[i] == p[0]
  {
    assert s[i..i + 1] == [s[i]] && p == [p[0]];
  }

  /** Every character of a needle is a character of the text. */
  lemma ContainsChars(s: string, p: string, c: char)
    requires Contains(s, p) && c in p
    ensures c in s
  {
    var i :| 0 <= i <= |s| && OccursAt(s, p, i);
    var k :| 0 <= k < |p| && p[k] == c;
    assert s[i + k] == s[i..i + |p|][k];
  }

  /** An occurrence is an occurrence in any text that has the same characters there. */
  lemma OccursAtShift(s: string, p: string, i: nat, s': string, i': nat)
    requires OccursAt(s, p, i) && i' + |p| <= |s'|
    requires forall k | i' <= k < i' + |p| :: s'[k] == s[k - i' + i]
    ensures OccursAt(s', p, i')
  {
    OccursAtChars(s, p, i);
    forall k | 0 <= k < |p| ensures s'[i'..i' + |p|][k] == p[k] {
      assert s'[i' + k] == s[i + k] == p[k];
    }
    assert s'[i'..i' + |p|] == p;
  }

  lemma OccursAtChars(s: string, p: string, i: nat)
    requires OccursAt(s, p, i)
    ensures forall k {:trigger p[k]} | 0 <= k < |p| :: s[i + k] == p[k]
    ensures forall j {:trigger s[j]} | i <= j < i + |p| :: s[j] == p[j - i]
  {
    forall k {:trigger p[k]} | 0 <= k < |p| ensures s[i + k] == p[k] {
      assert s[i..i + |p|][k] == s[i + k];
    }
  }

  /** An occurrence does not cover a character its needle lacks. */
  lemma MissingCharBlocks(s: string, p: string, i: nat, j: nat)
    requires OccursAt(s, p, i) && j < |s| && s[j] !in p
    ensures j < i || i + |p| <= j
  {
    OccursAtChars(s, p, i);
    assert s[j] == s[j];
  }

  lemma ContainsInside(a: string, s: string, b: string, p: string)
    requires Contains(s, p)
    ensures Contains(a + s + b, p)
  {
    var i :| 0 <= i <= |s| && OccursAt(s, p, i);
    OccursAtShift(s, p, i, a + s + b, |a| + i);
    ContainsAt(a + s + b, p, |a| + i);
  }

  lemma LowerConcat(a: string, b: string)
    ensures Lower(a + b) == Lower(a) + Lower(b)
  {
  }

  /** A needle that avoids the separator cannot match across parts. */
  lemma ContainsAcross(a: string, c: char, b: string, p: string)
    requires c !in p
    ensures Contains(a + [c] + b, p) <==> Contains(a, p) || Contains(b, p)
  {
    var s := a + [c] + b;
    if Contains(a, p) {
      ContainsInside("", a, [c] + b, p);
      assert "" + a + ([c] + b) == s;
    }
    if Contains(b, p) {
      ContainsInside(a + [c], b, "", p);
      assert a + [c] + b + "" == s;
    }
    if Contains(s, p) {
      var i :| 0 <= i <= |s| && OccursAt(s, p, i);
      OccursAtChars(s, p, i);
      if i + |p| <= |a| {
        OccursAtShift(s, p, i, a, i);
        ContainsAt(a, p, i);
      } else if |a| < i {
        OccursAtShift(s, p, i, b, i - |a| - 1);
        ContainsAt(b, p, i - |a| - 1);
      } else {
        MissingCharBlocks(s, p, i, |a|);
        assert false;
      }
    }
  }

  /** A joined text contains a needle without the separator exactly when some part does. */
  lemma {:induction false} ContainsJoined(parts: seq<string>, c: char, p: string)
    requires c !in p && p != ""
    ensures Contains(Join(parts, [c]), p) <==> exists i | 0 <= i < |parts| :: Contains(parts[i], p)
    decreases |parts|
  {
    if |parts| <= 1 {
    } else {
      ContainsJoined(parts[1..], c, p);
      ContainsAcross(parts[0], c, Join(parts[1..], [c]), p);
      assert forall i | 1 <= i < |parts| :: parts[i] == parts[1..][i - 1];
      assert forall i | 0 <= i < |parts| - 1 :: parts[1..][i] == parts[i + 1];
    }
  }

  /** Lowercasing each part and joining is joining and lowercasing, for a separator without case. */
  lemma {:induction false} LowerJoined(parts: seq<string>, lowered: seq<string>, c: char)
    requires LowerChar(c) == c
    requires |lowered| == |parts| && forall i | 0 <= i < |parts| :: lowered[i] == Lower(parts[i])
    ensures Lower(Join(parts, [c])) == Join(lowered, [c])
    decreases |parts|
  {
    if |parts| <= 1 {
    } else {
      LowerJoined(parts[1..], lowered[1..], c);
      LowerConcat(parts[0] + [c], Join(parts[1..], [c]));
      LowerConcat(parts[0], [c]);
      assert Lower([c]) == [c];
    }
  }

  /** Splitting at a separator whose first character the head lacks recovers the two parts. */
  lemma SplitOnceAt(head: string, p: string, tail: string)
    requires p != "" && p[0] !in head
    ensures SplitOnce(head + p + tail, p) == Some((head, tail))
  {
    var s := head + p + tail;
    FindIsFirst(s, p);
    assert s[|head|..|head| + |p|] == p;
    ContainsAt(s, p, |head|);
    assert forall i | 0 <= i < |head| :: s[i] == head[i] && head[i] in head;
    forall i | 0 <= i < |head| ensures !OccursAt(s, p, i) {
      if OccursAt(s, p, i) {
        OccursAtChars(s, p, i);
      }
    }
    assert s[..|head|] == head && s[|head| + |p|..] == tail;
  }

  // ---------- Decimal numbers ----------

  predicate IsDigit(c: char) {
    '0' <= c <= '9'
  }

  function Decimal(n: nat): string {
    if n < 10 then [('0' as int + n) as char] else Decimal(n / 10) + [('0' as int + n % 10) as char]
  }

  function DecimalValue(s: string): nat
    requires forall c | c in s :: IsDigit(c)
  {
    if s == "" then 0
    else
      assert IsDigit(s[|s| - 1]) by { assert s[|s| - 1] in s; }
      assert forall c | c in s[..|s| - 1] :: c in s;
      10 * DecimalValue(s[..|s| - 1]) + (s[|s| - 1] as int - '0' as int)
  }

  lemma {:induction false} DecimalIsDigits(n: nat)
    ensures Decimal(n) != "" && forall c | c in Decimal(n) :: IsDigit(c)
  {
    if n >= 10 {
      DecimalIsDigits(n / 10);
    }
  }

  lemma {:induction false} DecimalRoundTrip(n: nat)
    ensures (forall c | c in Decimal(n) :: IsDigit(c)) && DecimalValue(Decimal(n)) == n
  {
    DecimalIsDigits(n);
    if n >= 10 {
      DecimalRoundTrip(n / 10);
      assert Decimal(n)[..|Decimal(n)| - 1] == Decimal(n / 10);
    } else {
      assert Decimal(n)[..0] == "";
    }
  }
}
