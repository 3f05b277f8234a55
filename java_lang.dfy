/** The parts of java.lang.String and java.lang.Long that the transport helpers
    rely on, with Java's own semantics: `startsWith`, `endsWith`, `contains`,
    `substring` (which throws on a bad range), `indexOf`, `split` on a one-character
    literal separator, `int` division (which truncates toward zero) and
    `String.valueOf(long)`. */
module JavaLang {
  import opened Wrappers

  /** The one exception these operations can throw. */
  datatype JavaException = StringIndexOutOfBounds

  /** `s.startsWith(prefix)` */
  predicate StartsWith(s: string, prefix: string) {
    |prefix| <= |s| && s[..|prefix|] == prefix
  }

  /** `s.endsWith(suffix)` */
  predicate EndsWith(s: string, suffix: string) {
    |suffix| <= |s| && s[|s| - |suffix|..] == suffix
  }

  /** `s.contains(c)` for a one-character argument */
  predicate Contains(s: string, c: char) {
    c in s
  }

  /** `s.substring(begin, end)`: the characters at positions begin .. end-1;
      throws unless 0 <= begin <= end <= s.length(). */
  function Substring(s: string, begin: int, end: int): (r: Result<string, JavaException>)
    ensures r.Success? <==> 0 <= begin <= end <= |s|
    ensures r.Success? ==> |r.value| == end - begin
    ensures r.Success? ==> forall k :: 0 <= k < |r.value| ==> r.value[k] == s[begin + k]
  {
    if 0 <= begin <= end <= |s| then Success(s[begin..end]) else Failure(StringIndexOutOfBounds)
  }

  /** `a / 2` on Java integers, which rounds toward zero (Dafny's `/` is
      Euclidean, so the two differ on negative odd numbers). */
  function TruncHalf(a: int): (q: int)
    ensures a >= 0 ==> 0 <= a - 2 * q <= 1
    ensures a < 0 ==> -1 <= a - 2 * q <= 0
  {
    if a >= 0 then a / 2 else -((-a) / 2)
  }

  /** `s.indexOf(c)`: the position of the first `c` in `s`, or -1. */
  function IndexOf(s: string, c: char): (i: int)
    ensures -1 <= i < |s|
    ensures i < 0 <==> c !in s
    ensures 0 <= i ==> s[i] == c && c !in s[..i]
  {
    if |s| == 0 then -1
    else if s[0] == c then 0
    else
      var j := IndexOf(s[1..], c);
      if j < 0 then -1
      else
        assert s[..j + 1] == [s[0]] + s[1..][..j];
        j + 1
  }

  /** Every piece of `s` between occurrences of `d`, including empty ones:
      k occurrences give k + 1 pieces. */
  function Pieces(s: string, d: char): (r: seq<string>)
    ensures |r| >= 1
    ensures forall k :: 0 <= k < |r| ==> d !in r[k]
    decreases |s|
  {
    var i := IndexOf(s, d);
    if i < 0 then [s]
    else
      var head, rest := s[..i], Pieces(s[i + 1..], d);
      assert forall k :: 1 <= k < 1 + |rest| ==> ([head] + rest)[k] == rest[k - 1];
      [head] + rest
  }

  /** The inverse of `Pieces`: the pieces glued back together with `d`. */
  function Join(p: seq<string>, d: char): string {
    if |p| == 0 then ""
    else if |p| == 1 then p[0]
    else p[0] + [d] + Join(p[1..], d)
  }

  /** `p` without its trailing empty strings. */
  function DropTrailingEmpty(p: seq<string>): (r: seq<string>)
    ensures r <= p
    ensures r == [] || r[|r| - 1] != ""
    ensures forall k :: |r| <= k < |p| ==> p[k] == ""
  {
    if |p| > 0 && p[|p| - 1] == "" then DropTrailingEmpty(p[..|p| - 1]) else p
  }

  /** `s.split(d)` for a separator that is one character with no special meaning
      in a regular expression (such as `"` or `;`): when `s` holds no `d` the
      result is `[s]` (so `""` splits to `[""]`); otherwise it is every piece
      between occurrences of `d`, leading empty pieces kept, trailing empty
      pieces dropped. */
  function Split(s: string, d: char): (r: seq<string>)
    ensures d !in s ==> r == [s]
    ensures d in s ==> r <= Pieces(s, d)
    ensures d in s ==> r == [] || r[|r| - 1] != ""
    ensures d in s ==> forall k :: |r| <= k < |Pieces(s, d)| ==> Pieces(s, d)[k] == ""
    ensures forall k :: 0 <= k < |r| ==> d !in r[k]
  {
    if d !in s then [s] else DropTrailingEmpty(Pieces(s, d))
  }

  /** A string without `d` is one piece. */
  lemma PiecesWithout(s: string, d: char)
    requires d !in s
    ensures Pieces(s, d) == [s]
  {
  }

  /** When there are two pieces or more and the last is not empty, `split`
      drops nothing. */
  lemma SplitKeepsAllPieces(s: string, d: char)
    requires |Pieces(s, d)| >= 2 && Pieces(s, d)[|Pieces(s, d)| - 1] != ""
    ensures d in s && Split(s, d) == Pieces(s, d)
  {
    assert d in s;
  }

  /** The first `d` of `a + [d] + b` ends the first piece, when `a` holds no `d`. */
  lemma PiecesAfterFirst(a: string, b: string, d: char)
    requires d !in a
    ensures Pieces(a + [d] + b, d) == [a] + Pieces(b, d)
  {
    var s := a + [d] + b;
    assert s[|a|] == d;
    assert s[..|a|] == a;
    assert s[|a| + 1..] == b;
  }

  /** `Pieces` loses nothing: joining the pieces gives back the string. */
  lemma {:induction false} JoinPieces(s: string, d: char)
    ensures Join(Pieces(s, d), d) == s
    decreases |s|
  {
    var i := IndexOf(s, d);
    if i >= 0 {
      var head, tail := s[..i], s[i + 1..];
      assert s == head + [d] + tail;
      var rest := Pieces(tail, d);
      JoinPieces(tail, d);
      JoinCons(head, rest, d);
    }
  }

  lemma JoinCons(x: string, rest: seq<string>, d: char)
    requires |rest| >= 1
    ensures Join([x] + rest, d) == x + [d] + Join(rest, d)
  {
    assert ([x] + rest)[1..] == rest;
  }

  /** The character of a decimal digit. */
  function DigitChar(v: nat): (c: char)
    requires v < 10
    ensures '0' <= c <= '9' && c as int - '0' as int == v
  {
    (('0' as int) + v) as char
  }

  /** The number a string of decimal digits denotes (the reading direction of
      `LongToString`). */
  function DecimalValue(s: string): int {
    if s == [] then 0 else 10 * DecimalValue(s[..|s| - 1]) + (s[|s| - 1] as int - '0' as int)
  }

  /** `String.valueOf(n)` for a non-negative long: its decimal digits, with no
      leading zero. */
  function LongToString(n: nat): (r: string)
    ensures |r| >= 1
    ensures forall k :: 0 <= k < |r| ==> '0' <= r[k] <= '9'
    ensures DecimalValue(r) == n
    ensures r[0] == '0' ==> r == "0"
  {
    if n < 10 then [DigitChar(n)]
    else
      var high := LongToString(n / 10);
      assert (high + [DigitChar(n % 10)])[..|high|] == high;
      high + [DigitChar(n % 10)]
  }

  /** Appending a digit to the decimal form of a positive number gives the
      decimal form of ten times the number plus that digit. */
  lemma LongToStringAppend(n: nat, d: nat)
    requires n >= 1 && d < 10
    ensures LongToString(10 * n + d) == LongToString(n) + [DigitChar(d)]
  {
    var m := 10 * n + d;
    assert m / 10 == n && m % 10 == d;
  }
}
