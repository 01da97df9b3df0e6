/** JSON Pointer: escaping of keys, and the in-place unescaping the patch code uses. */
module PointerText {
  import opened Text

  const TILDE: cchar := 126
  const SLASH: cchar := 47
  const ONE: cchar := 49

  // ---------- escaping

  function EscapeChar(c: cchar): Str {
    if c == SLASH then [TILDE, ONE] else if c == TILDE then [TILDE, ZERO] else [c]
  }

  function EncodeFrom(s: Str, i: nat): Str
    requires i <= |s|
    decreases |s| - i
  {
    if i == |s| then [] else EscapeChar(s[i]) + EncodeFrom(s, i + 1)
  }

  /** Section 3 of RFC 6901: "~" is written "~0" and "/" is written "~1". */
  function Encode(s: Str): Str {
    EncodeFrom(s, 0)
  }

  /** The escaped form of the first i characters. */
  function EncodeTo(s: Str, i: nat): (e: Str)
    requires i <= |s|
    ensures |e| >= i
  {
    if i == 0 then [] else EncodeTo(s, i - 1) + EscapeChar(s[i - 1])
  }

  lemma {:induction false} EncodeMeets(s: Str, i: nat)
    requires i <= |s|
    ensures EncodeTo(s, i) + EncodeFrom(s, i) == Encode(s)
  {
    hide EscapeChar;
    if i > 0 {
      EncodeMeets(s, i - 1);
      assert EncodeTo(s, i - 1) + (EscapeChar(s[i - 1]) + EncodeFrom(s, i)) == EncodeTo(s, i) + EncodeFrom(s, i);
    }
  }

  lemma EncodeHasNoSlash(s: Str)
    ensures SLASH !in Encode(s)
    ensures |Encode(s)| >= |s|
  {
    EncodeMeets(s, |s|);
    EncodeToHasNoSlash(s, |s|);
  }

  lemma {:induction false} EncodeToHasNoSlash(s: Str, i: nat)
    requires i <= |s|
    ensures SLASH !in EncodeTo(s, i)
  {
    if i > 0 { EncodeToHasNoSlash(s, i - 1); }
  }

  /** Every c written as t. */
  function Substituted(s: Str, c: cchar, t: Str): Str {
    if s == [] then [] else (if s[0] == c then t else [s[0]]) + Substituted(s[1..], c, t)
  }

  lemma {:induction false} SubstitutedParts(a: Str, b: Str, c: cchar, t: Str)
    ensures Substituted(a + b, c, t) == Substituted(a, c, t) + Substituted(b, c, t)
  {
    if a == [] {
      assert a + b == b;
    } else {
      assert (a + b)[1..] == a[1..] + b;
      SubstitutedParts(a[1..], b, c, t);
    }
  }

  /** First "~" becomes "~0", then "/" becomes "~1": section 3 of RFC 6901. */
  function Escaped(s: Str): Str {
    Substituted(Substituted(s, '~' as int, Ascii("~0")), '/' as int, Ascii("~1"))
  }

  lemma SubstitutedOne(c: cchar, d: cchar, t: Str)
    ensures Substituted([c], d, t) == if c == d then t else [c]
    ensures Substituted([], d, t) == []
  {
    assert [c][1..] == [];
  }

  lemma EscapedChar(c: cchar)
    ensures Escaped([c]) == EscapeChar(c)
  {
    var tilde: Str, slash: Str := Ascii("~0"), Ascii("~1");
    assert tilde == [126] + [48] && slash == [126, 49];
    SubstitutedOne(c, 126, tilde);
    SubstitutedOne(c, 47, slash);
    SubstitutedOne(126, 47, slash);
    SubstitutedOne(48, 47, slash);
    SubstitutedParts([126], [48], 47, slash);
    hide Substituted;
  }

  /** The escaped form of a key is what the two substitutions of RFC 6901 make of it. */
  lemma {:induction false} EncodeSubstitutes(s: Str, i: nat)
    requires i <= |s|
    ensures EncodeFrom(s, i) == Escaped(s[i..])
    decreases |s| - i
  {
    if i < |s| {
      EncodeSubstitutes(s, i + 1);
      EscapedChar(s[i]);
      assert s[i..] == [s[i]] + s[i + 1..];
      SubstitutedParts([s[i]], s[i + 1..], '~' as int, Ascii("~0"));
      SubstitutedParts(Substituted([s[i]], '~' as int, Ascii("~0")), Substituted(s[i + 1..], '~' as int, Ascii("~0")),
                       '/' as int, Ascii("~1"));
      hide Substituted, EscapeChar;
    }
  }

  /** `pointer_encoded_length`. */
  method PointerEncodedLength(s: Str) returns (length: nat)
    ensures length == |Encode(s)|
  {
    length := 0;
    var i := 0;
    while i < |s|
      invariant i <= |s|
      invariant length == |EncodeTo(s, i)|
    {
      if s[i] == TILDE || s[i] == SLASH {
        length := length + 1;
      }
      length := length + 1;
      i := i + 1;
    }
    EncodeMeets(s, |s|);
  }

  /** `encode_string_as_pointer`; `PointerEncodedLength` is the room its callers reserve for the result. */
  method EncodeStringAsPointer(source: Str) returns (destination: Str)
    ensures destination == Encode(source)
  {
    destination := [];
    var i := 0;
    while i < |source|
      invariant i <= |source|
      invariant destination == EncodeTo(source, i)
    {
      if source[i] == SLASH {
        destination := destination + [TILDE, ONE];
      } else if source[i] == TILDE {
        destination := destination + [TILDE, ZERO];
      } else {
        destination := destination + [source[i]];
      }
      i := i + 1;
    }
    EncodeMeets(source, |source|);
  }

  // ---------- unescaping in place, as `decode_pointer_inplace` does it

  /** What the loop leaves in a buffer holding `buf`, from read position r and write position w. */
  function DecodeFrom(buf: Str, r: nat, w: nat): Str
    requires w <= r <= |buf|
    decreases |buf| - r
  {
    if r == |buf| then buf[..w]
    else if buf[r] != TILDE then DecodeFrom(buf, r + 1, w + 1)
    else if r + 1 < |buf| && buf[r + 1] == ZERO then DecodeFrom(buf[w := TILDE], r + 2, w + 1)
    else if r + 1 < |buf| && buf[r + 1] == ONE then DecodeFrom(buf[w + 1 := SLASH], r + 2, w + 1)
    else buf
  }

  function DecodeInPlace(s: Str): Str {
    DecodeFrom(s, 0, 0)
  }

  /** `decode_pointer_inplace` on a zero-terminated buffer. */
  method DecodePointerInplace(a: array<byte>, ghost s: Str)
    requires |s| < a.Length && a[..|s|] == s && a[|s|] == 0
    modifies a
    ensures |DecodeInPlace(s)| <= |s|
    ensures a[..|DecodeInPlace(s)|] == DecodeInPlace(s) && a[|DecodeInPlace(s)|] == 0
  {
    var r, w := 0, 0;
    ghost var buf: Str := s;
    while a[r] != 0
      invariant w <= r <= |s| == |buf|
      invariant a[..|s|] == buf && a[|s|] == 0
      invariant DecodeFrom(buf, r, w) == DecodeInPlace(s)
      decreases |s| - r
    {
      assert a[..|s|][r] == buf[r];
      if a[r] == TILDE {
        assert r + 1 < |s| ==> a[..|s|][r + 1] == buf[r + 1];
        if a[r + 1] == ZERO {
          a[w] := TILDE;
          buf := buf[w := TILDE];
        } else if a[r + 1] == ONE {
          a[w + 1] := SLASH;
          buf := buf[w + 1 := SLASH];
        } else {
          return;
        }
        r := r + 1;
      }
      w, r := w + 1, r + 1;
    }
    assert forall k :: 0 <= k < |s| ==> a[..|s|][k] == buf[k] != 0;
    assert DecodeInPlace(s) == buf[..w] == a[..|s|][..w];
    a[w] := 0;
  }

  /** A "~" that starts no escape ends the loop: up to the first such, without escapes before it, nothing changes. */
  lemma DecodeStops(s: Str, n: nat)
    requires n <= |s| && TILDE !in s[..n]
    requires n < |s| ==> s[n] == TILDE && (n + 1 < |s| ==> s[n + 1] != '0' as int && s[n + 1] != '1' as int)
    ensures DecodeInPlace(s) == s
  {
    DecodePlain(s, n, 0);
    assert s[..|s|] == s;
  }

  lemma {:induction false} DecodePlain(s: Str, n: nat, r: nat)
    requires r <= n <= |s| && TILDE !in s[..n]
    ensures DecodeFrom(s, r, r) == DecodeFrom(s, n, n)
    decreases n - r
  {
    if r < n {
      assert s[r] == s[..n][r];
      DecodePlain(s, n, r + 1);
    }
  }

  /** What one character of the decoded string really is. */
  function DecodedAt(k: Str, i: nat): cchar
    requires i < |k|
  {
    EncodeHasNoSlash(k);
    if k[i] == TILDE then TILDE else if i > 0 && k[i - 1] == SLASH then SLASH else Encode(k)[i]
  }

  /** The buffer after the loop has decoded character n. */
  function AfterStep(k: Str, n: nat, buf: Str): Str
    requires n < |k| && |EscapeChar(k[n])| + n <= |buf|
  {
    if k[n] == TILDE then buf[n := TILDE] else if k[n] == SLASH then buf[n + 1 := SLASH] else buf
  }

  lemma Room(k: Str, n: nat)
    requires n < |k|
    ensures n + |EscapeChar(k[n])| <= |Encode(k)|
  {
    EncodeMeets(k, n + 1);
  }

  /** The buffer after the loop has decoded the first n characters of k. */
  function BufferAfter(k: Str, n: nat): (buf: Str)
    requires n <= |k|
    ensures |buf| == |Encode(k)|
  {
    if n == 0 then Encode(k)
    else
      Room(k, n - 1);
      AfterStep(k, n - 1, BufferAfter(k, n - 1))
  }

  lemma ReadStep(k: Str, n: nat, buf: Str, r: nat)
    requires n < |k| && n <= r <= |buf| && buf[r..] == EncodeFrom(k, n)
    ensures r + |EscapeChar(k[n])| <= |buf|
    ensures DecodeFrom(buf, r, n) == DecodeFrom(AfterStep(k, n, buf), r + |EscapeChar(k[n])|, n + 1)
    ensures AfterStep(k, n, buf)[r + |EscapeChar(k[n])|..] == EncodeFrom(k, n + 1)
  {
    var e := EscapeChar(k[n]);
    assert |buf[r..]| >= |e|;
    assert buf[r] == buf[r..][0] && (|e| == 2 ==> buf[r + 1] == buf[r..][1]);
    assert AfterStep(k, n, buf)[r + |e|..] == buf[r..][|e|..];
  }

  lemma {:induction false} DecodeSteps(k: Str, n: nat) returns (r: nat)
    requires n <= |k|
    ensures n <= r <= |Encode(k)| && BufferAfter(k, n)[r..] == EncodeFrom(k, n)
    ensures DecodeInPlace(Encode(k)) == DecodeFrom(BufferAfter(k, n), r, n)
  {
    if n == 0 {
      r := 0;
    } else {
      var q := DecodeSteps(k, n - 1);
      ReadStep(k, n - 1, BufferAfter(k, n - 1), q);
      assert BufferAfter(k, n) == AfterStep(k, n - 1, BufferAfter(k, n - 1));
      r := q + |EscapeChar(k[n - 1])|;
    }
  }

  lemma {:induction false} BufferContents(k: Str, n: nat, i: nat)
    requires n <= |k| && i < |Encode(k)|
    ensures i < n ==> BufferAfter(k, n)[i] == DecodedAt(k, i)
    ensures i == n < |k| && k[n] != TILDE ==> BufferAfter(k, n)[i] == DecodedAt(k, n)
    ensures i > n ==> BufferAfter(k, n)[i] == Encode(k)[i]
  {
    if n > 0 {
      Room(k, n - 1);
      BufferContents(k, n - 1, i);
    }
  }

  lemma DecodeEncoded(k: Str)
    ensures |DecodeInPlace(Encode(k))| == |k|
    ensures forall i :: 0 <= i < |k| ==> DecodeInPlace(Encode(k))[i] == DecodedAt(k, i)
  {
    var r := DecodeSteps(k, |k|);
    assert DecodeInPlace(Encode(k)) == BufferAfter(k, |k|)[..|k|];
    forall i | 0 <= i < |k|
      ensures BufferAfter(k, |k|)[i] == DecodedAt(k, i)
    {
      EncodeHasNoSlash(k);
      BufferContents(k, |k|, i);
    }
  }

  /** The keys whose escaped form decodes back to the key, in a form that can be checked beforehand. */
  predicate SurvivesDecoding(k: Str) {
    EncodeHasNoSlash(k);
    SLASH !in k && forall i :: 0 <= i < |k| && k[i] != TILDE ==> Encode(k)[i] == k[i]
  }

  /** `decode_pointer_inplace` undoes the escaping of exactly these keys. */
  lemma DecodeRoundTrip(k: Str)
    ensures DecodeInPlace(Encode(k)) == k <==> SurvivesDecoding(k)
  {
    EncodeHasNoSlash(k);
    DecodeEncoded(k);
    var d := DecodeInPlace(Encode(k));
    if SLASH in k {
      var i := FirstSlash(k);
      assert d[i] == DecodedAt(k, i) && Encode(k)[i] in Encode(k);
      assert d[i] != k[i];
    }
    if d == k {
      forall i | 0 <= i < |k| && k[i] != TILDE
        ensures Encode(k)[i] == k[i]
      {
        assert d[i] == DecodedAt(k, i);
      }
    }
  }

  /** Without "/" in the key, what an encoded position holds: the "0" of an escape, or the start of a character. */
  lemma {:induction false} Origin(k: Str, n: nat, q: nat) returns (j: nat)
    requires n <= |k| && q < |EncodeTo(k, n)| && SLASH !in k
    ensures EncodeTo(k, n)[q] == ZERO || (j < n && q == |EncodeTo(k, j)| && EncodeTo(k, n)[q] == k[j])
  {
    j := 0;
    if n > 0 {
      var before := |EncodeTo(k, n - 1)|;
      if q < before {
        j := Origin(k, n - 1, q);
      } else if q == before {
        j := n - 1;
      }
    }
  }

  lemma {:induction false} EncodeToLength(k: Str, j: nat)
    requires j <= |k| && SLASH !in k
    ensures |EncodeTo(k, j)| == j <==> TILDE !in k[..j]
  {
    if j > 0 {
      EncodeToLength(k, j - 1);
      assert k[..j] == k[..j - 1] + [k[j - 1]];
    }
  }

  /** Behind a "~", a key that decodes to itself ignoring case holds only "~" and "0". */
  lemma {:induction false} BehindTilde(k: Str, i: nat)
    requires i < |k| && TILDE in k[..i] && SLASH !in k && Lower(DecodeInPlace(Encode(k))) == Lower(k)
    ensures k[i] == TILDE || k[i] == ZERO
  {
    EncodeHasNoSlash(k);
    if k[i] != TILDE {
      DecodedFolds(k, i);
      EncodeMeets(k, |k|);
      var j := Origin(k, |k|, i);
      if Encode(k)[i] != ZERO {
        EncodeToLength(k, j);
        BehindTilde(k, j);
      }
    }
  }

  lemma DecodedFolds(k: Str, i: nat)
    requires i < |k| && Lower(DecodeInPlace(Encode(k))) == Lower(k)
    ensures |DecodeInPlace(Encode(k))| == |k| <= |Encode(k)|
    ensures LowerChar(DecodedAt(k, i)) == LowerChar(k[i])
  {
    EncodeHasNoSlash(k);
    DecodeEncoded(k);
    var d := DecodeInPlace(Encode(k));
    assert Lower(d)[i] == LowerChar(d[i]) && Lower(k)[i] == LowerChar(k[i]);
  }

  /** A key that comes back ignoring case comes back as it was: in both modes the same keys survive. */
  lemma DecodeFolded(cs: bool, k: Str)
    ensures Fold(cs, DecodeInPlace(Encode(k))) == Fold(cs, k) <==> SurvivesDecoding(k)
  {
    DecodeRoundTrip(k);
    var d := DecodeInPlace(Encode(k));
    if Lower(d) == Lower(k) {
      EncodeHasNoSlash(k);
      if SLASH in k {
        var i := FirstSlash(k);
        assert Encode(k)[i] in Encode(k);
        DecodedFolds(k, i);
      }
      forall i | 0 <= i < |k| && k[i] != TILDE ensures Encode(k)[i] == k[i] {
        PlainFolded(k, i);
      }
    }
  }

  lemma PlainFolded(k: Str, i: nat)
    requires i < |k| && k[i] != TILDE && SLASH !in k && Lower(DecodeInPlace(Encode(k))) == Lower(k)
    ensures |k| <= |Encode(k)| && Encode(k)[i] == k[i]
  {
    DecodedFolds(k, i);
    if TILDE in k[..i] {
      BehindTilde(k, i);
    } else {
      EncodeToLength(k, i);
      EncodeStart(k, i);
    }
  }

  lemma EncodeStart(k: Str, i: nat)
    requires i < |k| && k[i] != TILDE && k[i] != SLASH
    ensures |EncodeTo(k, i)| < |Encode(k)| && Encode(k)[|EncodeTo(k, i)|] == k[i]
  {
    EncodeMeets(k, i);
  }

  lemma FirstSlash(k: Str) returns (i: nat)
    requires SLASH in k
    ensures i < |k| && k[i] == SLASH && (i > 0 ==> k[i - 1] != SLASH)
  {
    i := 0;
    while k[i] != SLASH
      invariant i < |k| && SLASH in k[i..] && (i > 0 ==> k[i - 1] != SLASH)
      decreases |k| - i
    {
      assert k[i..] == [k[i]] + k[i + 1..];
      i := i + 1;
    }
  }

  /** A key without "~" and "/" always survives; "a~b" does not, although it holds no "/". */
  lemma DecodeExamples(k: Str)
    ensures TILDE !in k && SLASH !in k ==> SurvivesDecoding(k) && Encode(k) == k
    ensures !SurvivesDecoding([97, TILDE, 98])
    ensures SurvivesDecoding([97, TILDE])
  {
    if TILDE !in k && SLASH !in k { EncodePlain(k); }
    var bad: Str := [97, TILDE, 98];
    assert EncodeFrom(bad, 3) == [];
    assert EncodeFrom(bad, 2) == [98];
    assert EncodeFrom(bad, 1) == [TILDE, ZERO, 98];
    assert bad[2] != TILDE && Encode(bad)[2] != bad[2];
    var good: Str := [97, TILDE];
    assert EncodeFrom(good, 2) == [];
    assert EncodeFrom(good, 1) == [TILDE, ZERO];
  }

  lemma EncodePlain(k: Str)
    requires TILDE !in k && SLASH !in k
    ensures Encode(k) == k
  {
    EncodePlainFrom(k, 0);
  }

  lemma {:induction false} EncodePlainFrom(k: Str, i: nat)
    requires TILDE !in k && SLASH !in k && i <= |k|
    ensures EncodeFrom(k, i) == k[i..]
    decreases |k| - i
  {
    if i < |k| { EncodePlainFrom(k, i + 1); }
  }
}
