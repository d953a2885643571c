/** Names as file paths: the lower-case base16 form of section 8 of RFC 4648. */
module HexNames {
  import opened Bytes

  const DIGITS := "0123456789abcdef"

  function Digit(d: nat): (c: char)
    requires d < 16
  {
    DIGITS[d]
  }

  /** The value of a hexadecimal digit, as `strtol` reads it. */
  function Value(c: char): (d: nat)
    ensures d < 16
  {
    if '0' <= c <= '9' then (c - '0') as int
    else if 'a' <= c <= 'f' then (c - 'a') as int + 10
    else if 'A' <= c <= 'F' then (c - 'A') as int + 10
    else 0
  }

  predicate IsHex(c: char) {
    '0' <= c <= '9' || 'a' <= c <= 'f' || 'A' <= c <= 'F'
  }

  lemma DigitValue(d: nat)
    requires d < 16
    ensures IsHex(Digit(d)) && Value(Digit(d)) == d
  {
    if d < 10 {
      assert DIGITS[d] == '0' + d as char;
    } else {
      assert DIGITS[d] == 'a' + (d - 10) as char;
    }
  }

  function Encode(s: seq<byte>): (r: string)
    ensures |r| == 2 * |s|
  {
    if s == [] then "" else
      var b: int := s[|s| - 1];
      Encode(s[..|s| - 1]) + [Digit(b / 16), Digit(b % 16)]
  }

  /** Two digits a byte; a last single digit stands for itself. */
  function Decode(t: string): (r: seq<byte>)
  {
    if t == "" then []
    else if |t| == 1 then [Value(t[0])]
    else [16 * Value(t[0]) + Value(t[1])] + Decode(t[2..])
  }

  method BinaryToHex(s: seq<byte>) returns (r: string)
    ensures r == Encode(s)
  {
    r := "";
    for i := 0 to |s|
      invariant r == Encode(s[..i])
    {
      assert s[..i + 1][..i] == s[..i];
      var b: int := s[i];
      r := r + [Digit(b / 16), Digit(b % 16)];
    }
    assert s[..|s|] == s;
  }

  function Rest(t: string, i: nat): (r: string) {
    if i <= |t| then t[i..] else ""
  }

  lemma DecodeStep(t: string, i: nat)
    requires i < |t|
    ensures Decode(Rest(t, i))
         == [if i + 1 < |t| then 16 * Value(t[i]) + Value(t[i + 1]) else Value(t[i])] + Decode(Rest(t, i + 2))
  {
    hide Value;
    if i + 1 < |t| {
      assert t[i..][2..] == t[i + 2..];
    }
  }

  /** Every two digits give one byte, the first the high half; a digit left over gives its own value. */
  lemma {:induction false} DecodeBytes(t: string, i: nat)
    requires 2 * i < |t|
    ensures |Decode(t)| == (|t| + 1) / 2
    ensures Decode(t)[i] == if 2 * i + 1 < |t| then 16 * Value(t[2 * i]) + Value(t[2 * i + 1]) else Value(t[2 * i])
    decreases |t|
  {
    hide Value;
    if |t| <= 2 {
    } else if i == 0 {
      DecodeBytes(t[2..], 0);
    } else {
      DecodeBytes(t[2..], i - 1);
    }
  }

  /** Both cases of a letter are read. */
  lemma ValueOfDigit(d: nat)
    requires d < 16
    ensures Value("0123456789abcdef"[d]) == d && Value("0123456789ABCDEF"[d]) == d
  {
    if d < 10 {
      assert "0123456789ABCDEF"[d] == '0' + d as char;
    } else {
      assert "0123456789ABCDEF"[d] == 'A' + (d - 10) as char;
    }
    DigitValue(d);
  }

  method HexToBinary(t: string) returns (r: seq<byte>)
    requires forall i :: 0 <= i < |t| ==> IsHex(t[i])
    ensures r == Decode(t)
  {
    hide Value, Decode, Rest;
    r := [];
    var i := 0;
    DecodeEnds(t, i);
    while i < |t|
      invariant 0 <= i && r + Decode(Rest(t, i)) == Decode(t)
      decreases |t| - i
    {
      DecodeStep(t, i);
      var b := if i + 1 < |t| then 16 * Value(t[i]) + Value(t[i + 1]) else Value(t[i]);
      MoveOne(r, b, Decode(Rest(t, i + 2)));
      r := r + [b];
      i := i + 2;
    }
    DecodeEnds(t, i);
  }

  lemma DecodeEnds(t: string, i: nat)
    ensures Rest(t, 0) == t
    ensures i >= |t| ==> Decode(Rest(t, i)) == []
  {
  }

  lemma MoveOne(r: seq<byte>, b: byte, d: seq<byte>)
    ensures r + ([b] + d) == r + [b] + d
  {
  }

  lemma {:induction false} EncodeConcat(s: seq<byte>, u: seq<byte>)
    ensures Encode(s + u) == Encode(s) + Encode(u)
    decreases |u|
  {
    if u == [] {
      assert s + u == s;
    } else {
      var n := |u| - 1;
      assert (s + u)[..|s + u| - 1] == s + u[..n];
      EncodeConcat(s, u[..n]);
    }
  }

  /** The form itself: two digits a byte, the high half first, in lower case. */
  lemma {:induction false} EncodeDigits(s: seq<byte>, i: nat)
    requires i < |s|
    ensures Encode(s)[2 * i] == "0123456789abcdef"[s[i] / 16]
    ensures Encode(s)[2 * i + 1] == "0123456789abcdef"[s[i] % 16]
    decreases |s|
  {
    var n := |s| - 1;
    if i == n {
    } else {
      EncodeDigits(s[..n], i);
    }
  }

  /** Only digits and the letters a to f. */
  lemma EncodeLowerCase(s: seq<byte>, k: nat)
    requires k < |Encode(s)|
    ensures '0' <= Encode(s)[k] <= '9' || 'a' <= Encode(s)[k] <= 'f'
  {
    hide Encode;
    EncodeDigits(s, k / 2);
  }

  /** Decoding undoes encoding, for every byte string. */
  lemma {:induction false} DecodeUndoesEncode(s: seq<byte>)
    ensures Decode(Encode(s)) == s && forall i :: 0 <= i < |Encode(s)| ==> IsHex(Encode(s)[i])
  {
    hide Value, Digit, IsHex;
    if s == [] {
    } else {
      assert s == [s[0]] + s[1..];
      EncodeConcat([s[0]], s[1..]);
      DecodeUndoesEncode(s[1..]);
      OneByte(s[0]);
      assert Encode(s)[2..] == Encode(s[1..]);
    }
  }

  lemma OneByte(b: byte)
    ensures var t := Encode([b]); IsHex(t[0]) && IsHex(t[1]) && 16 * Value(t[0]) + Value(t[1]) == b
  {
    var n: int := b;
    assert [b][..0] == [];
    DigitValue(n / 16);
    DigitValue(n % 16);
  }

  /** Where the record server keeps a record. */
  function RecordPath(mount: string, dc: Name, name: Name): (p: string) {
    mount + "/" + Encode(dc) + "/" + Encode(name)
  }

  lemma SlashSplits(x: string, y: string, x': string, y': string)
    requires x + "/" + y == x' + "/" + y'
    requires (forall i :: 0 <= i < |x| ==> x[i] != '/') && (forall i :: 0 <= i < |x'| ==> x'[i] != '/')
    ensures x == x' && y == y'
  {
    var a, b := x + "/" + y, x' + "/" + y';
    assert a[|x|] == '/' && b[|x'|] == '/';
    assert forall i :: 0 <= i < |x| ==> a[i] == x[i];
    assert forall i :: 0 <= i < |x'| ==> b[i] == x'[i];
    assert |x| == |x'|;
    assert x == a[..|x|] && x' == b[..|x'|] && y == a[|x| + 1..] && y' == b[|x'| + 1..];
  }

  /** Distinct names give distinct paths, so the server's directory tree is a map from (file, record). */
  lemma PathsDistinct(mount: string, dc: Name, name: Name, dc': Name, name': Name)
    requires RecordPath(mount, dc, name) == RecordPath(mount, dc', name')
    ensures dc == dc' && name == name'
  {
    var k := |mount| + 1;
    assert RecordPath(mount, dc, name)[k..] == Encode(dc) + "/" + Encode(name);
    assert RecordPath(mount, dc', name')[k..] == Encode(dc') + "/" + Encode(name');
    DecodeUndoesEncode(dc);
    DecodeUndoesEncode(dc');
    DecodeUndoesEncode(name);
    DecodeUndoesEncode(name');
    SlashSplits(Encode(dc), Encode(name), Encode(dc'), Encode(name'));
  }
}
