/** Symmetric encryption, known only by what the program relies on. */
module Ciphers {
  import opened Bytes

  const AES_KEY_LEN := 16
  const AES_PAD_LEN := 16

  datatype Cipher = Cipher(enc: (seq<byte>, seq<byte>) -> seq<byte>, dec: (seq<byte>, seq<byte>) -> seq<byte>)

  /** Decryption undoes encryption, and a ciphertext is the message padded to the next multiple
      of 16 (padding of section 6.3 of RFC 5652). */
  ghost predicate Sound(c: Cipher) {
    && (forall k, m {:trigger c.enc(k, m)} :: c.dec(k, c.enc(k, m)) == m)
    && (forall k, m {:trigger c.enc(k, m)} :: |c.enc(k, m)| == |m| + AES_PAD_LEN - |m| % AES_PAD_LEN)
  }

  function Pad(m: seq<byte>): (r: seq<byte>) {
    var p := AES_PAD_LEN - |m| % AES_PAD_LEN;
    m + seq(p, i => p)
  }

  function Unpad(s: seq<byte>): (r: seq<byte>) {
    if s == [] || s[|s| - 1] > |s| then s else s[..|s| - s[|s| - 1]]
  }

  lemma UnpadUndoesPad(m: seq<byte>)
    ensures Unpad(Pad(m)) == m && |Pad(m)| == |m| + AES_PAD_LEN - |m| % AES_PAD_LEN
  {
    var p := AES_PAD_LEN - |m| % AES_PAD_LEN;
    assert Pad(m)[|Pad(m)| - 1] == p;
    assert Pad(m)[..|m|] == m;
  }

  function Shift(s: seq<byte>, d: nat): (r: seq<byte>)
    ensures |r| == |s|
  {
    seq<byte>(|s|, i requires 0 <= i < |s| => (s[i] + d) % 256)
  }

  /** A toy cipher: pad, then add one to every byte. */
  function AddOne(): (c: Cipher) {
    Cipher((k, m) => Shift(Pad(m), 1), (k, s) => Unpad(Shift(s, 255)))
  }

  lemma ShiftBack(s: seq<byte>)
    ensures Shift(Shift(s, 1), 255) == s
  {
  }

  lemma AddOneRoundTrip(k: seq<byte>, m: seq<byte>)
    ensures AddOne().dec(k, AddOne().enc(k, m)) == m
    ensures |AddOne().enc(k, m)| == |m| + AES_PAD_LEN - |m| % AES_PAD_LEN
  {
    hide Pad, Unpad, Shift;
    UnpadUndoesPad(m);
    ShiftBack(Pad(m));
  }

  /** The assumption on ciphers is consistent. */
  lemma AddOneSound()
    ensures Sound(AddOne())
  {
    hide AddOne;
    var c := AddOne();
    forall k, m
      ensures c.dec(k, c.enc(k, m)) == m
      ensures |c.enc(k, m)| == |m| + AES_PAD_LEN - |m| % AES_PAD_LEN
    {
      AddOneRoundTrip(k, m);
    }
  }

  lemma FirstByteShifts(m: seq<byte>)
    requires m != []
    ensures Shift(Pad(m), 1)[0] != m[0]
  {
  }

  lemma AddOneEnc(k: seq<byte>, m: seq<byte>)
    ensures AddOne().enc(k, m) == Shift(Pad(m), 1)
  {
  }

  /** A key need not be a fixed point of encrypt-and-truncate: here no key of 16 bytes is one. */
  lemma KeyDrifts(mwKey: seq<byte>, key: seq<byte>)
    requires |key| == AES_KEY_LEN
    ensures Sound(AddOne())
    ensures AES_KEY_LEN <= |AddOne().enc(mwKey, key)| && AddOne().enc(mwKey, key)[..AES_KEY_LEN] != key
  {
    hide Sound, AddOne, Pad, Shift;
    AddOneSound();
    UnpadUndoesPad(key);
    AddOneEnc(mwKey, key);
    FirstByteShifts(key);
  }
}
