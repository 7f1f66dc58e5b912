/** The few Python string operations the server's decisions depend on:
    `str.strip()` (whitespace as Python defines it), the `": "` search and
    `split(": ")[1]` used for private-message confirmations, and
    `", ".join(...)`. */
module PyText {
  import opened Mailbox

  /** The characters Python's `str.strip()` removes when given no argument. */
  predicate IsSpace(c: char) {
    || ('\t' <= c <= '\r')
    || ('\U{001C}' <= c <= '\U{001F}')
    || c == ' ' || c == '\U{0085}' || c == '\U{00A0}' || c == '\U{1680}'
    || ('\U{2000}' <= c <= '\U{200A}')
    || c == '\U{2028}' || c == '\U{2029}' || c == '\U{202F}' || c == '\U{205F}' || c == '\U{3000}'
  }

  predicate IsBlank(s: string) {
    forall i :: 0 <= i < |s| ==> IsSpace(s[i])
  }

  /** `s.lstrip()`: drops the leading whitespace, keeping the rest as is. */
  function LStrip(s: string): (r: string)
    ensures |r| <= |s| && r == s[|s| - |r|..]
    ensures forall i :: 0 <= i < |s| - |r| ==> IsSpace(s[i])
    ensures r != [] ==> !IsSpace(r[0])
  {
    if s != [] && IsSpace(s[0]) then LStrip(s[1..]) else s
  }

  /** `s.rstrip()`: drops the trailing whitespace, keeping the rest as is. */
  function RStrip(s: string): (r: string)
    ensures |r| <= |s| && r == s[..|r|]
    ensures forall i :: |r| <= i < |s| ==> IsSpace(s[i])
    ensures r != [] ==> !IsSpace(r[|r| - 1])
  {
    if s != [] && IsSpace(s[|s| - 1]) then RStrip(s[..|s| - 1]) else s
  }

  /** `s.strip()`: no whitespace left at either end. */
  function Strip(s: string): (r: string)
    ensures |r| <= |s|
    ensures r != [] ==> !IsSpace(r[0]) && !IsSpace(r[|r| - 1])
  {
    RStrip(LStrip(s))
  }

  lemma {:induction false} RStripKeepsNonSpaceHead(s: string)
    requires s != [] && !IsSpace(s[0])
    ensures RStrip(s) != []
  {
    if |s| > 1 && IsSpace(s[|s| - 1]) {
      RStripKeepsNonSpaceHead(s[..|s| - 1]);
    }
  }

  /** `s.strip()` is falsy exactly when `s` is made of whitespace only. */
  lemma StripEmptyIffBlank(s: string)
    ensures Strip(s) == [] <==> IsBlank(s)
  {
    var l := LStrip(s);
    if l != [] {
      RStripKeepsNonSpaceHead(l);
      assert s[|s| - |l|] == l[0];
    }
  }

  // ---------------------------------------------------------------------
  // Searching for a separator

  predicate OccursAt(s: string, sep: string, i: nat) {
    i + |sep| <= |s| && s[i..i + |sep|] == sep
  }

  /** The first position at or after `from` where `sep` occurs in `s`. */
  function IndexFrom(s: string, sep: string, from: nat): (r: Option<nat>)
    requires from <= |s|
    ensures r.Some? ==> from <= r.value && OccursAt(s, sep, r.value)
    ensures r.Some? ==> forall j :: from <= j < r.value ==> !OccursAt(s, sep, j)
    ensures r.None? ==> forall j :: from <= j <= |s| ==> !OccursAt(s, sep, j)
    decreases |s| - from
  {
    if from + |sep| > |s| then None
    else if s[from..from + |sep|] == sep then Some(from)
    else IndexFrom(s, sep, from + 1)
  }

  function IndexOf(s: string, sep: string): Option<nat> {
    IndexFrom(s, sep, 0)
  }

  const Colon: string := ": "

  /** `message.split(": ")[1]` for a message in which `": "` occurs: the text
      after the first separator, up to the next separator if there is one. */
  function SecondField(message: string): (r: string)
    requires IndexOf(message, Colon).Some?
  {
    var i := IndexOf(message, Colon).value;
    var tail := message[i + |Colon|..];
    match IndexOf(tail, Colon)
    case Some(j) => tail[..j]
    case None => tail
  }

  /** The field taken by `split(": ")[1]` begins right after the first
      separator and runs up to the next separator, or to the end of the
      message when there is none; it holds no separator itself. */
  lemma SecondFieldIsSeparatorFree(message: string)
    requires IndexOf(message, Colon).Some?
    ensures IndexOf(SecondField(message), Colon).None?
    ensures var i := IndexOf(message, Colon).value;
      var end := i + |Colon| + |SecondField(message)|;
      && OccursAt(message, Colon, i)
      && (forall j :: 0 <= j < i ==> !OccursAt(message, Colon, j))
      && end <= |message|
      && message[i + |Colon|..end] == SecondField(message)
      && (end == |message| || OccursAt(message, Colon, end))
  {
    var i := IndexOf(message, Colon).value;
    var tail := message[i + |Colon|..];
    var r := SecondField(message);
    assert r == tail[..|r|];
    forall k: nat | OccursAt(r, Colon, k)
      ensures OccursAt(tail, Colon, k) && k < |r|
    {
      assert r[k..k + |Colon|] == tail[k..k + |Colon|];
    }
    var end := i + |Colon| + |r|;
    assert message[i + |Colon|..end] == tail[..|r|];
    match IndexOf(tail, Colon)
    case Some(j) =>
      assert message[end..end + |Colon|] == tail[j..j + |Colon|];
    case None =>
  }

  /** A sequence that has `sep` at `k` and nowhere before: its first
      occurrence is `k`. */
  lemma IndexOfFirst(s: string, sep: string, k: nat)
    requires OccursAt(s, sep, k)
    requires forall j :: 0 <= j < k ==> !OccursAt(s, sep, j)
    ensures IndexOf(s, sep) == Some(k)
  {
  }

  // ---------------------------------------------------------------------
  // Integers in text

  function Digit(d: nat): char
    requires d < 10
  {
    ('0' as int + d) as char
  }

  predicate IsDigit(c: char) { '0' <= c <= '9' }

  /** `str(n)` for a natural number: its decimal digits, no leading zero. */
  function Decimal(n: nat): (r: string)
    ensures r != [] && forall i :: 0 <= i < |r| ==> IsDigit(r[i])
    ensures |r| > 1 ==> r[0] != '0'
  {
    if n < 10 then [Digit(n)] else Decimal(n / 10) + [Digit(n % 10)]
  }

  function DigitValue(c: char): (d: nat)
    requires IsDigit(c)
    ensures d < 10
  {
    c as int - '0' as int
  }

  /** The number a string of decimal digits denotes. */
  function DecimalValue(s: string): nat
    requires forall i :: 0 <= i < |s| ==> IsDigit(s[i])
  {
    if s == [] then 0 else DecimalValue(s[..|s| - 1]) * 10 + DigitValue(s[|s| - 1])
  }

  /** Reading back the digits gives the number. */
  lemma {:induction false} DecimalRoundTrip(n: nat)
    ensures DecimalValue(Decimal(n)) == n
  {
    if n >= 10 {
      var r := Decimal(n);
      assert r[..|r| - 1] == Decimal(n / 10);
      DecimalRoundTrip(n / 10);
    }
  }

  // ---------------------------------------------------------------------
  // Joining and splitting

  const Comma: string := ", "

  /** `sep.join(items)`. */
  function JoinWith(items: seq<string>, sep: string): string {
    if items == [] then []
    else if |items| == 1 then items[0]
    else items[0] + sep + JoinWith(items[1..], sep)
  }

  /** `s.split(sep)` for a non-empty separator: the pieces between
      successive occurrences, leftmost first. */
  function SplitOn(s: string, sep: string): (r: seq<string>)
    requires sep != []
    ensures r != []
    decreases |s|
  {
    match IndexOf(s, sep)
    case None => [s]
    case Some(i) => [s[..i]] + SplitOn(s[i + |sep|..], sep)
  }

  /** A name list joined with `", "` splits back into the same names, as
      long as no name holds the separator itself. */
  lemma {:induction false} JoinThenSplit(items: seq<string>)
    requires items != []
    requires forall k :: 0 <= k < |items| ==> IndexOf(items[k], Comma).None?
    ensures SplitOn(JoinWith(items, Comma), Comma) == items
    decreases |items|
  {
    if |items| > 1 {
      var a, rest := items[0], JoinWith(items[1..], Comma);
      var s := a + Comma + rest;
      assert JoinWith(items, Comma) == s;
      forall j | 0 <= j < |a|
        ensures !OccursAt(s, Comma, j)
      {
        if j + |Comma| <= |a| {
          assert s[j..j + |Comma|] == a[j..j + |Comma|];
          assert !OccursAt(a, Comma, j);
        } else {
          assert s[j + 1] == ',';
        }
      }
      assert s[|a|..|a| + |Comma|] == Comma;
      IndexOfFirst(s, Comma, |a|);
      assert s[..|a|] == a && s[|a| + |Comma|..] == rest;
      JoinThenSplit(items[1..]);
      assert items == [a] + items[1..];
    }
  }
}
