/**
 * The text the dispatcher hands to `printf`: unsigned decimal numbers
 * (`%lu`, `%bu`), two-digit lower-case hexadecimal bytes (`%02bx`), and the
 * heartbeat and packet-trace lines built from them.  Format-string parsing is
 * not modelled; each conversion is a function with its inverse.
 */
module Format {
  import opened Types

  predicate IsDigit(c: char) { '0' <= c <= '9' }

  predicate IsLowerHexDigit(c: char) { IsDigit(c) || 'a' <= c <= 'f' }

  predicate AllDigits(s: string) { forall i :: 0 <= i < |s| ==> IsDigit(s[i]) }

  function DigitChar(d: nat): (c: char)
    requires d < 10
    ensures IsDigit(c) && c as int - '0' as int == d
  {
    ('0' as int + d) as char
  }

  function DigitValue(c: char): (d: nat)
    requires IsDigit(c)
    ensures d < 10 && DigitChar(d) == c
  {
    c as int - '0' as int
  }

  /** `%u`: decimal digits, most significant first, no padding and no leading zero. */
  function Decimal(n: nat): (s: string)
    ensures |s| >= 1
    ensures s[0] == '0' ==> n == 0 && |s| == 1
    decreases n
  {
    if n < 10 then [DigitChar(n)] else Decimal(n / 10) + [DigitChar(n % 10)]
  }

  /** `Decimal` produces only digit characters. */
  lemma {:induction false} DecimalDigits(n: nat)
    ensures AllDigits(Decimal(n))
    decreases n
  {
    if n >= 10 {
      DecimalDigits(n / 10);
      var s := Decimal(n);
      assert s == Decimal(n / 10) + [DigitChar(n % 10)];
    }
  }

  /** Reads a string of decimal digits back as a number. */
  function ParseDecimal(s: string): nat
    requires AllDigits(s)
  {
    if s == [] then 0 else ParseDecimal(s[..|s| - 1]) * 10 + DigitValue(s[|s| - 1])
  }

  lemma {:induction false} ParseDecimalOfDecimal(n: nat)
    ensures AllDigits(Decimal(n)) && ParseDecimal(Decimal(n)) == n
    decreases n
  {
    DecimalDigits(n);
    var s := Decimal(n);
    if n >= 10 {
      ParseDecimalOfDecimal(n / 10);
      assert s[..|s| - 1] == Decimal(n / 10);
    }
  }

  lemma DecimalInjective(m: nat, n: nat)
    requires Decimal(m) == Decimal(n)
    ensures m == n
  {
    ParseDecimalOfDecimal(m);
    ParseDecimalOfDecimal(n);
  }

  function HexDigitChar(d: nat): (c: char)
    requires d < 16
    ensures IsLowerHexDigit(c)
  {
    if d < 10 then DigitChar(d) else ('a' as int + (d - 10)) as char
  }

  function HexDigitValue(c: char): (d: nat)
    requires IsLowerHexDigit(c)
    ensures d < 16 && HexDigitChar(d) == c
  {
    if IsDigit(c) then DigitValue(c) else c as int - 'a' as int + 10
  }

  /** `%02bx`: one byte as exactly two lower-case hexadecimal digits, zero padded. */
  function Hex2(b: uint8): (s: string)
    ensures |s| == 2 && IsLowerHexDigit(s[0]) && IsLowerHexDigit(s[1])
  {
    [HexDigitChar(b / 16), HexDigitChar(b % 16)]
  }

  function ParseHex2(s: string): (b: uint8)
    requires |s| == 2 && IsLowerHexDigit(s[0]) && IsLowerHexDigit(s[1])
  {
    HexDigitValue(s[0]) * 16 + HexDigitValue(s[1])
  }

  lemma ParseHex2OfHex2(b: uint8)
    ensures ParseHex2(Hex2(b)) == b
  {
    var s := Hex2(b);
    assert HexDigitChar(HexDigitValue(s[0])) == HexDigitChar(b / 16);
    HexDigitCharInjective(HexDigitValue(s[0]), b / 16);
    HexDigitCharInjective(HexDigitValue(s[1]), b % 16);
  }

  lemma HexDigitCharInjective(d: nat, e: nat)
    requires d < 16 && e < 16 && HexDigitChar(d) == HexDigitChar(e)
    ensures d == e
  {
  }

  /** One `printf(" %02bx", b)` of the byte loop. */
  function HexToken(b: uint8): (s: string)
    ensures |s| == 3 && s[0] == ' ' && s[1..] == Hex2(b)
  {
    " " + Hex2(b)
  }

  /** The byte loop's whole output: one token per byte, in payload order. */
  function HexTokens(bytes: seq<uint8>): string
  {
    if bytes == [] then "" else HexTokens(bytes[..|bytes| - 1]) + HexToken(bytes[|bytes| - 1])
  }

  lemma {:induction false} HexTokensAt(bytes: seq<uint8>, i: nat)
    requires i < |bytes|
    ensures |HexTokens(bytes)| == 3 * |bytes|
    ensures HexTokens(bytes)[3 * i..3 * i + 3] == HexToken(bytes[i])
    decreases |bytes|
  {
    var front := bytes[..|bytes| - 1];
    if front != [] {
      HexTokensAt(front, if i < |front| then i else 0);
    }
    TokenSlice(HexTokens(front), HexToken(bytes[|bytes| - 1]), i, |front|);
  }

  /** Token `i` of a run of `n` tokens followed by one more. */
  lemma TokenSlice(x: string, y: string, i: nat, n: nat)
    requires |x| == 3 * n && |y| == 3 && i <= n
    ensures |x + y| == 3 * (n + 1)
    ensures (x + y)[3 * i..3 * i + 3] == if i < n then x[3 * i..3 * i + 3] else y
  {
    if i < n {
      Lift(x, y, 3 * i, 3 * i + 3);
    } else {
      assert (x + y)[|x|..] == y;
    }
  }

  lemma HexTokensLength(bytes: seq<uint8>)
    ensures |HexTokens(bytes)| == 3 * |bytes|
  {
    if bytes != [] {
      HexTokensAt(bytes, 0);
    }
  }

  /** A space followed by two lower-case hexadecimal digits. */
  predicate IsHexToken(t: string)
  {
    |t| == 3 && t[0] == ' ' && IsLowerHexDigit(t[1]) && IsLowerHexDigit(t[2])
  }

  /** Reads the byte loop's output back, three characters per byte; None if it is not such a list. */
  function ParseHexTokens(s: string): Option<seq<uint8>>
    decreases |s|
  {
    if s == [] then Some([])
    else if |s| < 3 || !IsHexToken(s[|s| - 3..]) then None
    else match ParseHexTokens(s[..|s| - 3])
      case None => None
      case Some(front) => Some(front + [ParseHex2(s[|s| - 2..])])
  }

  /** The bytes listed in a packet trace can be read back from it, in order. */
  lemma {:induction false} ParseHexTokensOfHexTokens(bytes: seq<uint8>)
    ensures ParseHexTokens(HexTokens(bytes)) == Some(bytes)
    decreases |bytes|
  {
    if bytes != [] {
      var front, last := bytes[..|bytes| - 1], bytes[|bytes| - 1];
      var s := HexTokens(bytes);
      HexTokensSplit(front, last);
      ParseHexTokensOfHexTokens(front);
      ParseHex2OfHex2(last);
      assert front + [last] == bytes;
    }
  }

  lemma HexTokensSplit(front: seq<uint8>, last: uint8)
    ensures var s := HexTokens(front + [last]);
      |s| >= 3 && s[..|s| - 3] == HexTokens(front) && IsHexToken(s[|s| - 3..]) && s[|s| - 2..] == Hex2(last)
  {
    var bytes := front + [last];
    assert bytes[..|bytes| - 1] == front;
    var s := HexTokens(bytes);
    var t := HexToken(last);
    assert s == HexTokens(front) + t;
  }

  /** Line 167: `" %lu sec\r\n"` with the seconds since boot. */
  function Heartbeat(seconds: nat): string
  {
    " " + Decimal(seconds) + HeartbeatSuffix
  }

  /** The carriage return and line feed that end every line. */
  const LineEnd: string := "\r\n"

  const HeartbeatSuffix: string := " sec" + LineEnd

  /** A heartbeat line is a space, the decimal seconds and " sec\r\n"; the seconds read back. */
  lemma HeartbeatReadsBack(seconds: nat)
    ensures var h := Heartbeat(seconds);
      |h| >= 2 + |HeartbeatSuffix| && h[0] == ' ' && h[|h| - |HeartbeatSuffix|..] == HeartbeatSuffix &&
      AllDigits(h[1..|h| - |HeartbeatSuffix|]) && ParseDecimal(h[1..|h| - |HeartbeatSuffix|]) == seconds
  {
    var h := Heartbeat(seconds);
    assert h[1..|h| - |HeartbeatSuffix|] == Decimal(seconds);
    assert h[|h| - |HeartbeatSuffix|..] == HeartbeatSuffix;
    ParseDecimalOfDecimal(seconds);
  }

  const PipePrefix: string := "rf rcv in pipe = "
  const LenPrefix: string := ", len = "

  /** Lines 179-180: the packet header printed before the byte loop. */
  function PacketHeader(pipe: uint8, len: uint8): string
  {
    PipePrefix + Decimal(pipe) + LenPrefix + Decimal(len) + "::"
  }

  /** Lines 179-184: the whole trace line for one packet. */
  function PacketTrace(pipe: uint8, payload: seq<uint8>): string
    requires |payload| < 0x100
  {
    PacketHeader(pipe, |payload|) + HexTokens(payload) + LineEnd
  }

  /** The pieces of a header printed by one `printf` call are where they were put. */
  lemma PiecesOfHeader(a: string, b: string, c: string, d: string, e: string)
    ensures var t := a + b + c + d + e;
      var i1 := |a|; var i2 := i1 + |b|; var i3 := i2 + |c|; var i4 := i3 + |d|;
      |t| == i4 + |e| &&
      t[..i1] == a && t[i1..i2] == b && t[i2..i3] == c && t[i3..i4] == d && t[i4..] == e
  {
    var p2 := a + b; var p3 := p2 + c; var p4 := p3 + d;
    Lift(p4, e, |p3|, |p4|);
    Lift(p4, e, |p2|, |p3|); Lift(p3, d, |p2|, |p3|);
    Lift(p4, e, |a|, |p2|); Lift(p3, d, |a|, |p2|); Lift(p2, c, |a|, |p2|);
    Lift(p4, e, 0, |a|); Lift(p3, d, 0, |a|); Lift(p2, c, 0, |a|); Lift(a, b, 0, |a|);
  }

  /** A slice inside the left operand of a concatenation is that operand's slice; the right operand starts where it ends. */
  lemma Lift(x: string, y: string, i: nat, j: nat)
    requires i <= j <= |x|
    ensures (x + y)[i..j] == x[i..j]
    ensures (x + y)[|x|..] == y
  {
  }

  /** What holds of a decimal field holds of any slice equal to it. */
  lemma DecimalField(u: string, n: nat)
    requires u == Decimal(n)
    ensures AllDigits(u) && ParseDecimal(u) == n
  {
    ParseDecimalOfDecimal(n);
  }

  /**
   * A packet header reads back: after "rf rcv in pipe = " comes the pipe in
   * decimal up to `pipeEnd`, then ", len = ", the length in decimal and "::".
   * Both decimal fields are all digits, parse back to the pipe and the
   * length, and are followed by a non-digit, so a reader finds their ends.
   */
  lemma PacketHeaderReadsBack(pipe: uint8, len: uint8) returns (pipeEnd: nat)
    ensures var hd := PacketHeader(pipe, len); var a := |PipePrefix|; var c := pipeEnd + |LenPrefix|;
      a < pipeEnd && c < |hd| - 2 &&
      hd[..a] == PipePrefix &&
      AllDigits(hd[a..pipeEnd]) && ParseDecimal(hd[a..pipeEnd]) == pipe as nat &&
      hd[pipeEnd..c] == LenPrefix && !IsDigit(hd[pipeEnd]) &&
      AllDigits(hd[c..|hd| - 2]) && ParseDecimal(hd[c..|hd| - 2]) == len as nat &&
      hd[|hd| - 2..] == "::" && !IsDigit(hd[|hd| - 2])
  {
    var dp, dl := Decimal(pipe as nat), Decimal(len as nat);
    pipeEnd := |PipePrefix| + |dp|;
    var hd := PacketHeader(pipe, len);
    var c := pipeEnd + |LenPrefix|;
    PiecesOfHeader(PipePrefix, dp, LenPrefix, dl, "::");
    DecimalField(hd[|PipePrefix|..pipeEnd], pipe as nat);
    DecimalField(hd[c..|hd| - 2], len as nat);
    assert hd[pipeEnd] == hd[pipeEnd..c][0] && hd[|hd| - 2] == hd[|hd| - 2..][0];
  }

  /**
   * A packet line reads back: the header for the pipe and the payload's
   * length (which reads back as above), then tokens that parse back to the
   * payload, then "\r\n".
   */
  lemma PacketTraceReadsBack(pipe: uint8, payload: seq<uint8>)
    requires |payload| < 0x100
    ensures var t := PacketTrace(pipe, payload); var hd := PacketHeader(pipe, |payload|);
      |t| == |hd| + 3 * |payload| + |LineEnd| &&
      t[..|hd|] == hd &&
      ParseHexTokens(t[|hd|..|t| - |LineEnd|]) == Some(payload) &&
      t[|t| - |LineEnd|..] == LineEnd
  {
    var hd, h := PacketHeader(pipe, |payload|), HexTokens(payload);
    var t := PacketTrace(pipe, payload);
    HexTokensLength(payload);
    Lift(hd + h, LineEnd, 0, |hd|);
    Lift(hd, h, 0, |hd|);
    Lift(hd + h, LineEnd, |hd|, |hd| + |h|);
    TokensField(t[|hd|..|t| - |LineEnd|], payload);
  }

  /** What holds of a run of hex tokens holds of any slice equal to it. */
  lemma TokensField(u: string, bytes: seq<uint8>)
    requires u == HexTokens(bytes)
    ensures ParseHexTokens(u) == Some(bytes)
  {
    ParseHexTokensOfHexTokens(bytes);
  }
}
