/** ustar archive headers (lib/ustar.c), with the octal conversion of printf (lib/stdio.c).
    A header is a 512-byte buffer; a C string is its sequence of nonzero bytes. */
module Ustar {
  import opened Wrappers
  import opened Bytes

  const REGULAR: byte := 48      // '0'
  const DIRECTORY: byte := 53    // '5'

  datatype ParseResult =
    | EndOfArchive
    | Entry(name: seq<byte>, typeflag: byte, size: int)
    | NotUstar | BadVersion | CorruptChksum | ChksumMismatch | NameTooLong | BadType | CorruptSize | FileTooLarge

  // ----- file names

  /** Starts with "/", "./" or "../". */
  predicate Antisocial(s: seq<byte>)
  {
    || (|s| >= 1 && s[0] == 47)
    || (|s| >= 2 && s[0] == 46 && s[1] == 47)
    || (|s| >= 3 && s[0] == 46 && s[1] == 46 && s[2] == 47)
  }

  /** Index of the first slash, as strchr finds it. */
  function FirstSlash(s: seq<byte>): (i: nat)
    requires 47 in s
    ensures i < |s| && s[i] == 47 && 47 !in s[..i]
  {
    if s[0] == 47 then 0
    else
      assert s == [s[0]] + s[1..];
      var i := FirstSlash(s[1..]) + 1;
      assert s[..i] == [s[0]] + s[1..][..i - 1];
      i
  }

  /** The first of several components is empty, "." or "..". */
  lemma AntisocialIff(s: seq<byte>)
    ensures Antisocial(s) <==> 47 in s && s[..FirstSlash(s)] in {[], [46], [46, 46]}
  {
    if 47 in s {
      var p := s[..FirstSlash(s)];
      assert forall i :: 0 <= i < |p| ==> p[i] == s[i] && p[i] in p;
      if Antisocial(s) && s[0] != 47 {
        assert s[1] == 47 ==> p == [46];
        assert s[1] != 47 ==> p == [46, 46];
      }
    }
  }

  /** What strip_antisocial_prefixes returns. */
  function Strip(s: seq<byte>): (r: seq<byte>)
    decreases |s|
  {
    if Antisocial(s) then
      assert 47 in s;
      Strip(s[FirstSlash(s) + 1..])
    else if s == [] || s == [46, 46] then [46]
    else s
  }

  method StripPrefixes(name: seq<byte>) returns (r: seq<byte>)
    ensures r == Strip(name)
  {
    r := name;
    while Antisocial(r)
      invariant Strip(r) == Strip(name)
      decreases |r|
    {
      assert 47 in r;
      r := r[FirstSlash(r) + 1..];
    }
    r := if r == [] || r == [46, 46] then [46] else r;
  }

  lemma SuffixOfSuffix(s: seq<byte>, n: nat, r: seq<byte>)
    requires n <= |s|
    ensures |r| <= |s[n..]| && r == s[n..][|s[n..]| - |r|..] ==> |r| <= |s| && r == s[|s| - |r|..]
  {
  }

  /** A stripped name is nonempty, is not "..", cannot climb out by its prefix, and is a suffix of
      the original unless it is "."; and stripping is idempotent. */
  lemma {:induction false} StripIsSafe(s: seq<byte>)
    ensures var r := Strip(s);
            && r != [] && r != [46, 46] && !Antisocial(r) && Strip(r) == r
            && (r == [46] || (|r| <= |s| && r == s[|s| - |r|..]))
            && (IsCString(s) ==> IsCString(r))
    decreases |s|
  {
    if Antisocial(s) {
      assert 47 in s;
      var t := s[FirstSlash(s) + 1..];
      StripIsSafe(t);
      var r := Strip(t);
      SuffixOfSuffix(s, FirstSlash(s) + 1, r);
    } else if s == [] || s == [46, 46] {
      assert !Antisocial([46]);
    } else {
      assert s[0..] == s;
    }
  }

  /** A component of the path starts at k. */
  predicate StartsAt(s: seq<byte>, k: nat) { k <= |s| && (k == 0 || s[k - 1] == 47) }

  /** The first component from which on the path is harmless starts at k. */
  ghost predicate FirstHarmless(s: seq<byte>, k: nat)
  {
    && StartsAt(s, k) && !Antisocial(s[k..])
    && forall j :: 0 <= j < k && StartsAt(s, j) ==> Antisocial(s[j..])
  }

  /** Stripping drops no more than it has to: what is left is the longest harmless rest of the path, or
      "." when that is empty or "..". */
  lemma {:induction false} StripIsLongest(s: seq<byte>) returns (k: nat)
    ensures FirstHarmless(s, k) && Strip(s) == if s[k..] == [] || s[k..] == [46, 46] then [46] else s[k..]
    decreases |s|
  {
    assert s[0..] == s;
    if Antisocial(s) {
      assert 47 in s;
      var n := FirstSlash(s) + 1;
      var t := s[n..];
      var j := StripIsLongest(t);
      k := n + j;
      assert s[k..] == t[j..];
      forall i | 0 < i < n
        ensures !StartsAt(s, i)
      {
        assert s[i - 1] == s[..n - 1][i - 1];
      }
      forall i | n <= i < k && StartsAt(s, i)
        ensures Antisocial(s[i..])
      {
        assert s[i..] == t[i - n..] && StartsAt(t, i - n);
      }
    } else {
      k := 0;
    }
  }

  // ----- octal fields

  function Pow8(w: nat): nat
  {
    if w == 0 then 1 else 8 * Pow8(w - 1)
  }

  /** v as exactly w octal digits. */
  function Octal(v: nat, w: nat): (s: seq<byte>)
    ensures |s| == w
    ensures forall i :: 0 <= i < w ==> 48 <= s[i] <= 55
    decreases w
  {
    if w == 0 then [] else Octal(v / 8, w - 1) + [48 + v % 8]
  }

  lemma {:induction false} ZerosLead(k: nat, w: nat, v: nat)
    requires k <= w && v < Pow8(k)
    ensures Octal(v, w) == seq(w - k, i => 48) + Octal(v, k)
    decreases w
  {
    if k == w {
      assert seq(w - k, i => 48) == [];
    } else if k == 0 {
      ZerosLead(0, w - 1, 0);
      assert Octal(0, w) == Octal(0, w - 1) + [48];
      assert seq(w - 1, i => 48) + [48] == seq(w, i => 48);
    } else {
      ZerosLead(k - 1, w - 1, v / 8);
      assert Octal(v, w) == (seq(w - k, i => 48) + Octal(v / 8, k - 1)) + [48 + v % 8];
    }
  }

  function Reverse(s: seq<byte>): (r: seq<byte>)
    ensures |r| == |s|
  {
    if s == [] then [] else Reverse(s[1..]) + [s[0]]
  }

  lemma {:induction false} ReverseAppend(s: seq<byte>, x: byte)
    ensures Reverse(s + [x]) == [x] + Reverse(s)
    decreases |s|
  {
    if s == [] {
      assert [] + [x] == [x];
    } else {
      ReverseAppend(s[1..], x);
      assert (s + [x])[1..] == s[1..] + [x];
    }
  }

  /** v after dropping k octal digits. */
  function Shift(v: nat, k: nat): nat
    decreases k
  {
    if k == 0 then v else Shift(v / 8, k - 1)
  }

  lemma {:induction false} ShiftStep(v: nat, k: nat)
    ensures Shift(v, k + 1) == Shift(v, k) / 8
    decreases k
  {
    if k > 0 { ShiftStep(v / 8, k - 1); }
  }

  lemma {:induction false} NextDigit(v: nat, k: nat)
    ensures Octal(v, k + 1) == [48 + Shift(v, k) % 8] + Octal(v, k)
    decreases k
  {
    if k > 0 {
      NextDigit(v / 8, k - 1);
      assert Octal(v, k + 1) == ([48 + Shift(v, k) % 8] + Octal(v / 8, k - 1)) + [48 + v % 8];
    }
  }

  lemma {:induction false} ShiftRange(v: nat, k: nat)
    ensures Shift(v, k) == 0 <==> v < Pow8(k)
    decreases k
  {
    if k > 0 { ShiftRange(v / 8, k - 1); }
  }

  lemma {:induction false} Pow8Mono(j: nat, k: nat)
    requires j <= k
    ensures 1 <= Pow8(j) <= Pow8(k)
    decreases k
  {
    if j < k { Pow8Mono(j, k - 1); } else if j > 0 { Pow8Mono(j - 1, k - 1); }
  }

  /** Digit i counts from the left: it is that of the power 8^(w - 1 - i). */
  lemma {:induction false} OctalDigits(v: nat, w: nat, i: nat)
    requires i < w
    ensures Octal(v, w)[i] == 48 + Shift(v, w - 1 - i) % 8
    decreases w
  {
    if i < w - 1 { OctalDigits(v / 8, w - 1, i); }
  }

  /** Dropping k octal digits is dividing by 8^k. */
  lemma {:induction false} ShiftIsDivision(v: nat, k: nat)
    ensures Shift(v, k) * Pow8(k) <= v < (Shift(v, k) + 1) * Pow8(k)
    decreases k
  {
    if k > 0 {
      ShiftIsDivision(v / 8, k - 1);
      EightTimes(Shift(v / 8, k - 1), Pow8(k - 1), v);
    }
  }

  lemma EightTimes(q: nat, p: nat, v: nat)
    requires q * p <= v / 8 < (q + 1) * p
    ensures q * (8 * p) <= v < (q + 1) * (8 * p)
  {
    assert q * (8 * p) == 8 * (q * p) && (q + 1) * (8 * p) == 8 * ((q + 1) * p);
  }

  /** printf of an unsigned value with "%0<width>o": digits are produced least significant first
      into a buffer, padded, and output in reverse. */
  method FormatOctal(v: nat, width: nat) returns (s: seq<byte>)
    requires 0 < width
    ensures v < Pow8(width) ==> s == Octal(v, width)
  {
    var value: nat := v;
    var buf: seq<byte> := [];
    while value > 0
      invariant value == Shift(v, |buf|) && Reverse(buf) == Octal(v, |buf|)
      invariant |buf| > 0 ==> Shift(v, |buf| - 1) > 0
      decreases value
    {
      ReverseAppend(buf, 48 + value % 8);
      NextDigit(v, |buf|);
      ShiftStep(v, |buf|);
      buf := buf + [48 + value % 8];
      value := value / 8;
    }
    ghost var digits := |buf|;
    while |buf| < 1
      invariant |buf| <= 1 || |buf| == digits
      invariant Reverse(buf) == Octal(v, |buf|) && Shift(v, |buf|) == 0
      invariant |buf| > 1 ==> Shift(v, |buf| - 1) > 0
    {
      ReverseAppend(buf, 48);
      NextDigit(v, 0);
      ShiftStep(v, 0);
      buf := buf + [48];
    }
    var pad := if width < |buf| then 0 else width - |buf|;
    s := seq(pad, i => 48);
    ShiftRange(v, |buf|);
    ShiftRange(v, |buf| - 1);
    if v < Pow8(width) {
      if width < |buf| { Pow8Mono(width, |buf| - 1); }
      ZerosLead(|buf|, width, v);
    }
    s := s + Reverse(buf);
  }

  // ----- parsing octal fields

  predicate IsDigit(c: byte) { 48 <= c <= 55 }

  /** parse_octal_field from offset ofs on, with the value accumulated so far; None is failure. */
  function ParseFrom(s: seq<byte>, ofs: nat, value: nat): Option<nat>
    requires ofs <= |s|
    decreases |s| - ofs
  {
    if ofs == |s| then None                                   // not terminated
    else if IsDigit(s[ofs]) then
      if value > 0xffff_ffff / 8 then None                    // overflow
      else ParseFrom(s, ofs + 1, s[ofs] - 48 + value * 8)
    else if s[ofs] == 32 || s[ofs] == 0 then
      if ofs > 0 then Some(value) else None
    else None
  }

  method ParseOctalField(s: seq<byte>) returns (r: Option<nat>)
    ensures r == ParseFrom(s, 0, 0)
    ensures r.Some? ==> r.value <= 0xffff_ffff
  {
    var value: nat := 0;
    var ofs: nat := 0;
    while ofs < |s|
      invariant ofs <= |s| && ParseFrom(s, ofs, value) == ParseFrom(s, 0, 0)
      invariant value <= 0xffff_ffff
    {
      var c := s[ofs];
      if IsDigit(c) {
        if value > 0xffff_ffff / 8 {
          return None;
        }
        value := c - 48 + value * 8;
      } else if c == 32 || c == 0 {
        return if ofs > 0 then Some(value) else None;
      } else {
        return None;
      }
      ofs := ofs + 1;
    }
    r := None;
  }

  /** The value of the digits s[i..n] appended to acc. */
  ghost function Value(s: seq<byte>, i: nat, n: nat, acc: nat): nat
    requires i <= n <= |s| && forall j :: i <= j < n ==> IsDigit(s[j])
    decreases n - i
  {
    if i == n then acc else assert IsDigit(s[i]); Value(s, i + 1, n, s[i] - 48 + acc * 8)
  }

  lemma {:induction false} ValueGrows(s: seq<byte>, i: nat, n: nat, acc: nat)
    requires i <= n <= |s| && forall j :: i <= j < n ==> IsDigit(s[j])
    ensures Value(s, i, n, acc) >= acc
    decreases n - i
  {
    if i < n { ValueGrows(s, i + 1, n, s[i] - 48 + acc * 8); }
  }

  lemma {:induction false} ValueSnoc(s: seq<byte>, i: nat, n: nat, acc: nat)
    requires i < n <= |s| && forall j :: i <= j < n ==> IsDigit(s[j])
    ensures Value(s, i, n, acc) == Value(s, i, n - 1, acc) * 8 + (s[n - 1] - 48)
    decreases n - i
  {
    if i + 1 < n { ValueSnoc(s, i + 1, n, s[i] - 48 + acc * 8); }
  }

  lemma {:induction false} ValuePrefix(s: seq<byte>, t: seq<byte>, i: nat, n: nat, acc: nat)
    requires i <= n <= |s| && n <= |t| && (forall j :: i <= j < n ==> IsDigit(s[j]) && s[j] == t[j])
    ensures Value(s, i, n, acc) == Value(t, i, n, acc)
    decreases n - i
  {
    if i < n { ValuePrefix(s, t, i + 1, n, s[i] - 48 + acc * 8); }
  }

  /** The digits printed for v have the value v. */
  lemma {:induction false} OctalValue(v: nat, w: nat)
    requires v < Pow8(w)
    ensures Value(Octal(v, w), 0, w, 0) == v
    decreases w
  {
    if w > 0 {
      OctalValue(v / 8, w - 1);
      var s := Octal(v, w);
      ValueSnoc(s, 0, w, 0);
      ValuePrefix(s, Octal(v / 8, w - 1), 0, w - 1, 0);
    }
  }

  lemma {:induction false} DigitsParse(s: seq<byte>, i: nat, n: nat, acc: nat)
    requires i <= n < |s| && (forall j :: i <= j < n ==> IsDigit(s[j])) && Value(s, i, n, acc) <= 0xffff_ffff
    requires s[n] == 0 && n > 0
    ensures ParseFrom(s, i, acc) == Some(Value(s, i, n, acc))
    decreases n - i
  {
    if i < n {
      ValueGrows(s, i + 1, n, s[i] - 48 + acc * 8);
      DigitsParse(s, i + 1, n, s[i] - 48 + acc * 8);
    }
  }

  /** The field holds n > 0 octal digits and then a space or a null byte. */
  predicate IsOctalField(s: seq<byte>, n: nat)
  {
    0 < n < |s| && (s[n] == 32 || s[n] == 0) && forall j :: 0 <= j < n ==> IsDigit(s[j])
  }

  lemma {:induction false} ParsesDigits(s: seq<byte>, i: nat, n: nat, acc: nat)
    requires i <= n && IsOctalField(s, n) && acc <= 0xffff_ffff
    ensures ParseFrom(s, i, acc) == if Value(s, i, n, acc) <= 0xffff_ffff then Some(Value(s, i, n, acc)) else None
    decreases n - i
  {
    if i < n {
      ValueGrows(s, i + 1, n, s[i] - 48 + acc * 8);
      if acc <= 0xffff_ffff / 8 { ParsesDigits(s, i + 1, n, s[i] - 48 + acc * 8); }
    }
  }

  lemma {:induction false} ParsedDigits(s: seq<byte>, i: nat, acc: nat) returns (n: nat)
    requires i <= |s| && (forall j :: 0 <= j < i ==> IsDigit(s[j])) && ParseFrom(s, i, acc).Some?
    ensures i <= n && IsOctalField(s, n)
    decreases |s| - i
  {
    if IsDigit(s[i]) { n := ParsedDigits(s, i + 1, s[i] - 48 + acc * 8); } else { n := i; }
  }

  /** Exactly the fields of octal digits ended by a space or a null byte, with a value that fits 32
      bits, are accepted, and give that value. */
  lemma OctalFieldIff(s: seq<byte>, v: nat)
    ensures ParseFrom(s, 0, 0) == Some(v) <==> exists n: nat :: IsOctalField(s, n) && Value(s, 0, n, 0) == v && v <= 0xffff_ffff
  {
    forall n: nat | IsOctalField(s, n)
      ensures ParseFrom(s, 0, 0) == if Value(s, 0, n, 0) <= 0xffff_ffff then Some(Value(s, 0, n, 0)) else None
    {
      ParsesDigits(s, 0, n, 0);
    }
    if ParseFrom(s, 0, 0).Some? {
      var n := ParsedDigits(s, 0, 0);
      assert IsOctalField(s, n);
    }
  }

  /** Printing and parsing an octal field are inverse, for every value that fits the field and an
      unsigned long. */
  lemma OctalRoundTrip(v: nat, w: nat)
    requires 0 < w && v < Pow8(w) && v <= 0xffff_ffff
    ensures ParseFrom(Octal(v, w) + [0], 0, 0) == Some(v)
  {
    var s := Octal(v, w) + [0];
    OctalValue(v, w);
    ValuePrefix(s, Octal(v, w), 0, w, 0);
    DigitsParse(s, 0, w, 0);
  }

  // ----- the header

  /** h with the bytes b stored from offset ofs on. */
  function Put(h: seq<byte>, ofs: nat, b: seq<byte>): (r: seq<byte>)
    requires ofs + |b| <= |h|
    ensures |r| == |h|
    ensures forall i :: 0 <= i < |h| ==> r[i] == if ofs <= i < ofs + |b| then b[i - ofs] else h[i]
  {
    h[..ofs] + b + h[ofs + |b|..]
  }

  method PutField(a: array<byte>, ofs: nat, b: seq<byte>)
    requires ofs + |b| <= a.Length
    modifies a
    ensures a[..] == Put(old(a[..]), ofs, b)
  {
    var i := 0;
    while i < |b|
      invariant i <= |b|
      invariant forall j :: 0 <= j < a.Length ==> a[j] == if ofs <= j < ofs + i then b[j - ofs] else old(a[j])
    {
      a[ofs + i] := b[i];
      i := i + 1;
    }
    assert a[..] == Put(old(a[..]), ofs, b);
  }

  predicate InChksum(i: nat) { 148 <= i < 156 }

  /** Sum of the first n bytes, the checksum field counting as spaces. */
  function SumTo(h: seq<byte>, n: nat): (r: nat)
    requires n <= |h|
    ensures r <= 255 * n
  {
    if n == 0 then 0 else SumTo(h, n - 1) + (if InChksum(n - 1) then 32 else h[n - 1])
  }

  function Checksum(h: seq<byte>): nat
  {
    SumTo(h, |h|)
  }

  method CalculateChksum(h: array<byte>) returns (r: nat)
    requires h.Length == 512
    ensures r == Checksum(h[..])
  {
    r := 0;
    var i := 0;
    while i < 512
      invariant i <= 512 && r == SumTo(h[..], i)
    {
      r := (r + if InChksum(i) then 32 else h[i]) % 0x1_0000_0000;
      i := i + 1;
    }
  }

  /** The checksum does not depend on the checksum field. */
  lemma {:induction false} SumIgnoresField(h: seq<byte>, h': seq<byte>, n: nat)
    requires n <= |h| == |h'| && forall i :: 0 <= i < |h| && !InChksum(i) ==> h[i] == h'[i]
    ensures SumTo(h, n) == SumTo(h', n)
    decreases n
  {
    if n > 0 { SumIgnoresField(h, h', n - 1); }
  }

  /** The checksum moves with every byte outside its field. */
  lemma {:induction false} SumChanged(h: seq<byte>, i: nat, b: byte, n: nat)
    requires i < |h| && n <= |h|
    ensures SumTo(h[i := b], n) == SumTo(h, n) + if i < n && !InChksum(i) then b - h[i] else 0
    decreases n
  {
    if n > 0 { SumChanged(h, i, b, n - 1); }
  }

  /** Of a header of zeros it counts the eight spaces in its field. */
  lemma {:induction false} SumOfZeros(n: nat)
    requires n <= 512
    ensures SumTo(Zeros(512), n) == 32 * if n <= 148 then 0 else if n <= 156 then n - 148 else 8
    decreases n
  {
    if n > 0 { SumOfZeros(n - 1); }
  }

  function Zeros(n: nat): (r: seq<byte>)
    ensures |r| == n && forall i :: 0 <= i < n ==> r[i] == 0
  {
    seq(n, i => 0)
  }

  const ROOT: seq<byte> := [114, 111, 111, 116]
  const USTAR: seq<byte> := [117, 115, 116, 97, 114, 0]

  /** Everything but the checksum. */
  function Body(name: seq<byte>, typeflag: byte, size: nat): (h: seq<byte>)
    requires |name| <= 99
    ensures |h| == 512
  {
    var h := Put(Zeros(512), 0, name);
    var h := Put(h, 100, Octal(if typeflag == REGULAR then 420 else 493, 7));
    var h := Put(h, 108, Octal(0, 7));
    var h := Put(h, 116, Octal(0, 7));
    var h := Put(h, 124, Octal(size, 11));
    var h := Put(h, 136, Octal(1136102400, 11));
    var h := Put(h, 156, [typeflag]);
    var h := Put(h, 257, USTAR);
    var h := Put(h, 263, [48, 48]);
    var h := Put(h, 297, ROOT);
    Put(h, 265, ROOT)
  }

  function Header(name: seq<byte>, typeflag: byte, size: nat): (h: seq<byte>)
    requires |name| <= 99
    ensures |h| == 512
  {
    var b := Body(name, typeflag, size);
    Put(b, 148, Octal(Checksum(b), 7))
  }

  /** A field of n bytes that starts with b and is zero after it. */
  function Field(b: seq<byte>, n: nat): (f: seq<byte>)
    requires |b| <= n
    ensures |f| == n && f[..|b|] == b && forall i :: |b| <= i < n ==> f[i] == 0
  {
    b + Zeros(n - |b|)
  }

  /** The fields of struct ustar_header before the checksum, one after another. */
  function FrontFields(name: seq<byte>, mode: seq<byte>, owner: seq<byte>, size: seq<byte>, time: seq<byte>): (f: seq<byte>)
    requires |name| <= 100 && |mode| <= 8 && |owner| <= 8 && |size| <= 12 && |time| <= 12
    ensures |f| == 148
  {
    Field(name, 100) + Field(mode, 8) + Field(owner, 8) + Field(owner, 8) + Field(size, 12) + Field(time, 12)
  }

  /** And those after it. */
  function BackFields(typeflag: byte): (f: seq<byte>)
    ensures |f| == 356
  {
    [typeflag] + Field([], 100) + USTAR + [48, 48] + Field(ROOT, 32) + Field(ROOT, 32) + Field([], 183)
  }

  function Mode(typeflag: byte): (m: seq<byte>)
    ensures |m| == 7
  {
    Octal(if typeflag == REGULAR then 420 else 493, 7)
  }

  /** Which field a byte of the body comes from. */
  lemma FrontAt(name: seq<byte>, typeflag: byte, size: nat, i: nat)
    requires |name| <= 99 && i < 148
    ensures var h := Body(name, typeflag, size);
            && (i < 100 ==> h[i] == Field(name, 100)[i])
            && (100 <= i < 108 ==> h[i] == Field(Mode(typeflag), 8)[i - 100])
            && (108 <= i < 116 ==> h[i] == Field(Octal(0, 7), 8)[i - 108])
            && (116 <= i < 124 ==> h[i] == Field(Octal(0, 7), 8)[i - 116])
            && (124 <= i < 136 ==> h[i] == Field(Octal(size, 11), 12)[i - 124])
            && (136 <= i < 148 ==> h[i] == Field(Octal(1136102400, 11), 12)[i - 136])
  {
  }

  lemma BackAt(name: seq<byte>, typeflag: byte, size: nat, i: nat)
    requires |name| <= 99 && 156 <= i < 265
    ensures var h := Body(name, typeflag, size);
            && (i == 156 ==> h[i] == typeflag) && (157 <= i < 257 ==> h[i] == 0)
            && (257 <= i < 263 ==> h[i] == USTAR[i - 257]) && (263 <= i < 265 ==> h[i] == 48)
  {
  }

  lemma NamesAt(name: seq<byte>, typeflag: byte, size: nat, i: nat)
    requires |name| <= 99 && 265 <= i < 512
    ensures var h := Body(name, typeflag, size);
            && (265 <= i < 297 ==> h[i] == Field(ROOT, 32)[i - 265]) && (297 <= i < 329 ==> h[i] == Field(ROOT, 32)[i - 297])
            && (329 <= i ==> h[i] == 0)
  {
  }

  lemma FrontLaid(name: seq<byte>, typeflag: byte, size: nat)
    requires |name| <= 99
    ensures Body(name, typeflag, size)[..148] == FrontFields(name, Mode(typeflag), Octal(0, 7), Octal(size, 11), Octal(1136102400, 11))
  {
    var h, f := Body(name, typeflag, size), FrontFields(name, Mode(typeflag), Octal(0, 7), Octal(size, 11), Octal(1136102400, 11));
    forall i | 0 <= i < 148
      ensures h[i] == f[i]
    {
      FrontAt(name, typeflag, size, i);
    }
  }

  lemma BackLaid(name: seq<byte>, typeflag: byte, size: nat)
    requires |name| <= 99
    ensures Body(name, typeflag, size)[156..] == BackFields(typeflag)
  {
    var h := Body(name, typeflag, size);
    forall i | 156 <= i < 512
      ensures h[i] == BackFields(typeflag)[i - 156]
    {
      if i < 265 { BackAt(name, typeflag, size, i); } else { NamesAt(name, typeflag, size, i); }
    }
  }

  /** A header is laid out as the struct is, its checksum field holding the sum in octal. */
  lemma HeaderLaid(name: seq<byte>, typeflag: byte, size: nat)
    requires |name| <= 99
    ensures var h := Header(name, typeflag, size);
            h == FrontFields(name, Mode(typeflag), Octal(0, 7), Octal(size, 11), Octal(1136102400, 11))
                 + Field(Octal(Checksum(h), 7), 8) + BackFields(typeflag)
  {
    var h, b := Header(name, typeflag, size), Body(name, typeflag, size);
    FrontLaid(name, typeflag, size);
    BackLaid(name, typeflag, size);
    HeaderFields(name, typeflag, size);
    ThreeParts(h, b, FrontFields(name, Mode(typeflag), Octal(0, 7), Octal(size, 11), Octal(1136102400, 11)), Field(Octal(Checksum(h), 7), 8), BackFields(typeflag));
  }

  lemma ThreeParts(h: seq<byte>, b: seq<byte>, front: seq<byte>, mid: seq<byte>, back: seq<byte>)
    requires |h| == |b| == 512 && (forall i :: 0 <= i < 512 && !InChksum(i) ==> h[i] == b[i])
    requires b[..148] == front && h[148..156] == mid && b[156..] == back
    ensures h == front + mid + back
  {
    assert h[..148] == b[..148] && h[156..] == b[156..];
    assert h == h[..148] + h[148..156] + h[156..];
  }

  /** int passed to an unsigned conversion. */
  function AsUnsigned(size: int): nat
    requires -0x8000_0000 <= size < 0x8000_0000
  {
    size % 0x1_0000_0000
  }

  lemma FieldWidths(v: nat)
    ensures v <= 0xffff_ffff ==> v < Pow8(11)
    ensures v <= 130560 ==> v < Pow8(7)
  {
    assert Pow8(2) == 64;
    assert Pow8(4) == 4096;
    assert Pow8(6) == 262144;
    assert Pow8(7) == 2097152;
    assert Pow8(9) == 134217728;
    assert Pow8(11) == 8589934592;
  }

  /** ustar_make_header: fails exactly when the stripped name is too long. */
  method MakeHeader(fileName: seq<byte>, typeflag: byte, size: int, h: array<byte>) returns (ok: bool)
    requires h.Length == 512 && (typeflag == REGULAR || typeflag == DIRECTORY)
    requires -0x8000_0000 <= size < 0x8000_0000
    modifies h
    ensures ok <==> |Strip(fileName)| <= 99
    ensures ok ==> h[..] == Header(Strip(fileName), typeflag, AsUnsigned(size))
    ensures !ok ==> h[..] == old(h[..])
  {
    var name := StripPrefixes(fileName);
    if |name| > 99 {
      return false;
    }
    FillBody(name, typeflag, AsUnsigned(size), h);
    var sum := CalculateChksum(h);
    FieldWidths(sum);
    var digits := FormatOctal(sum, 7);
    PutField(h, 148, digits);
    ok := true;
  }

  method Clear(h: array<byte>)
    requires h.Length == 512
    modifies h
    ensures h[..] == Zeros(512)
  {
    var i := 0;
    while i < 512
      invariant i <= 512 && forall j :: 0 <= j < i ==> h[j] == 0
    {
      h[i] := 0;
      i := i + 1;
    }
  }

  method FillBody(name: seq<byte>, typeflag: byte, size: nat, h: array<byte>)
    requires h.Length == 512 && |name| <= 99 && size <= 0xffff_ffff
    modifies h
    ensures h[..] == Body(name, typeflag, size)
  {
    Clear(h);
    PutField(h, 0, name);
    FieldWidths(if typeflag == REGULAR then 420 else 493);
    var f := FormatOctal(if typeflag == REGULAR then 420 else 493, 7);
    PutField(h, 100, f);
    FieldWidths(0);
    f := FormatOctal(0, 7);
    PutField(h, 108, f);
    PutField(h, 116, f);
    FieldWidths(size);
    f := FormatOctal(size, 11);
    PutField(h, 124, f);
    FieldWidths(1136102400);
    f := FormatOctal(1136102400, 11);
    PutField(h, 136, f);
    PutField(h, 156, [typeflag]);
    PutField(h, 257, USTAR);
    PutField(h, 263, [48, 48]);
    PutField(h, 297, ROOT);
    PutField(h, 265, ROOT);
  }

  // ----- parsing

  predicate AllZeros(h: seq<byte>)
  {
    forall i :: 0 <= i < |h| ==> h[i] == 0
  }

  /** What ustar_parse_header makes of a header. */
  function Parse(h: seq<byte>): ParseResult
    requires |h| == 512
  {
    if AllZeros(h) then EndOfArchive
    else if h[257..263] != USTAR then NotUstar
    else if h[263] != 48 || h[264] != 48 then BadVersion
    else
      var chksum := ParseFrom(h[148..156], 0, 0);
      if chksum.None? then CorruptChksum
      else if chksum.value != Checksum(h) then ChksumMismatch
      else if h[99] != 0 || h[345] != 0 then NameTooLong
      else if h[156] == REGULAR then
        var size := ParseFrom(h[124..136], 0, 0);
        if size.None? then CorruptSize
        else if size.value > 0x7fff_ffff then FileTooLarge
        else Entry(Strip(CString(h[..100])), h[156], size.value)
      else if h[156] == DIRECTORY then Entry(Strip(CString(h[..100])), h[156], 0)
      else BadType
  }

  method IsAllZeros(h: array<byte>) returns (r: bool)
    ensures r == AllZeros(h[..])
  {
    var i := 0;
    while i < h.Length
      invariant i <= h.Length && forall j :: 0 <= j < i ==> h[j] == 0
    {
      if h[i] != 0 {
        assert h[..][i] != 0;
        return false;
      }
      i := i + 1;
    }
    r := true;
  }

  method ParseHeader(h: array<byte>) returns (r: ParseResult)
    requires h.Length == 512
    ensures r == Parse(h[..]) && (r.Entry? <==> WellFormed(h[..]))
  {
    EntryIff(h[..]);
    var zero := IsAllZeros(h);
    if zero {
      return EndOfArchive;
    }
    assert h[257..263] == h[..][257..263] && h[148..156] == h[..][148..156] && h[124..136] == h[..][124..136];
    if h[257..263] != USTAR {
      return NotUstar;
    } else if h[263] != 48 || h[264] != 48 {
      return BadVersion;
    }
    var chksum := ParseOctalField(h[148..156]);
    var sum := CalculateChksum(h);
    if chksum.None? {
      return CorruptChksum;
    } else if chksum.value != sum {
      return ChksumMismatch;
    } else if h[99] != 0 || h[345] != 0 {
      return NameTooLong;
    } else if h[156] != REGULAR && h[156] != DIRECTORY {
      return BadType;
    }
    var size: nat := 0;
    if h[156] == REGULAR {
      var parsed := ParseOctalField(h[124..136]);
      if parsed.None? {
        return CorruptSize;
      } else if parsed.value > 0x7fff_ffff {
        return FileTooLarge;
      }
      size := parsed.value;
    }
    assert h[..100] == h[..][..100];
    var name := StripPrefixes(CString(h[..100]));
    r := Entry(name, h[156], size);
  }

  /** The magic number, version, terminators and type are right, and both numbers are octal. */
  ghost predicate WellFormed(h: seq<byte>)
    requires |h| == 512
  {
    && h[257..265] == [117, 115, 116, 97, 114, 0, 48, 48] && h[99] == 0 && h[345] == 0
    && (exists n: nat :: IsOctalField(h[148..156], n) && Value(h[148..156], 0, n, 0) == Checksum(h))
    && (h[156] == 53 || (h[156] == 48 && exists n: nat :: IsOctalField(h[124..136], n) && Value(h[124..136], 0, n, 0) <= 0x7fff_ffff))
  }

  lemma ChecksumRange(h: seq<byte>)
    requires |h| == 512
    ensures Checksum(h) <= 0xffff_ffff
  {
  }

  /** Exactly the well-formed headers are taken for entries, with the stripped name, the type and the
      size that their fields hold. */
  lemma EntryIff(h: seq<byte>)
    requires |h| == 512
    ensures Parse(h).Entry? <==> WellFormed(h)
    ensures Parse(h).Entry? ==> Parse(h).name == Strip(CString(h[..100])) && Parse(h).typeflag == h[156]
    ensures Parse(h).Entry? && h[156] == DIRECTORY ==> Parse(h).size == 0
    ensures Parse(h).Entry? && h[156] == REGULAR ==> ParseFrom(h[124..136], 0, 0) == Some(Parse(h).size)
  {
    ChecksumRange(h);
    OctalFieldIff(h[148..156], Checksum(h));
    MagicIff(h);
    SizeIff(h[124..136]);
    assert h[257] == h[257..265][0] && USTAR[0] != 0;
  }

  lemma MagicIff(h: seq<byte>)
    requires |h| == 512
    ensures h[257..265] == [117, 115, 116, 97, 114, 0, 48, 48] <==> h[257..263] == USTAR && h[263] == 48 && h[264] == 48
  {
    assert h[257..265] == h[257..263] + [h[263], h[264]];
    assert h[257..265][..6] == h[257..263] && h[257..265][6] == h[263] && h[257..265][7] == h[264];
    assert USTAR + [48, 48] == [117, 115, 116, 97, 114, 0, 48, 48] && (USTAR + [48, 48])[..6] == USTAR;
  }

  lemma SizeIff(s: seq<byte>)
    ensures (exists n: nat :: IsOctalField(s, n) && Value(s, 0, n, 0) <= 0x7fff_ffff) <==>
            ParseFrom(s, 0, 0).Some? && ParseFrom(s, 0, 0).value <= 0x7fff_ffff
  {
    if n: nat :| IsOctalField(s, n) && Value(s, 0, n, 0) <= 0x7fff_ffff { OctalFieldIff(s, Value(s, 0, n, 0)); }
    if ParseFrom(s, 0, 0).Some? { OctalFieldIff(s, ParseFrom(s, 0, 0).value); }
  }

  /** The result when the checksum field of h is replaced by one that holds v. */
  function Rechecked(h: seq<byte>, v: Option<nat>): ParseResult
    requires |h| == 512
  {
    if v.None? then CorruptChksum else if v.value == Checksum(h) then Parse(h) else ChksumMismatch
  }

  /** Corruption is detected: any one byte changed in the header of an entry makes the parser report it,
      by the magic number, the version or the checksum, unless the checksum field still has the
      same value. */
  lemma CorruptionDetected(h: seq<byte>, i: nat, b: byte)
    requires |h| == 512 && Parse(h).Entry? && i < 512 && b != h[i]
    ensures 257 <= i < 263 ==> Parse(h[i := b]) == NotUstar
    ensures 263 <= i < 265 ==> Parse(h[i := b]) == BadVersion
    ensures !InChksum(i) && !(257 <= i < 265) ==> Parse(h[i := b]) == ChksumMismatch
    ensures InChksum(i) ==> Parse(h[i := b]) == Rechecked(h, ParseFrom(h[148..156][i - 148 := b], 0, 0))
  {
    var h' := h[i := b];
    assert h[257..263][0] == 117 && h[257..263][1] == 115;
    assert h[257] == 117 && h[258] == 115;
    assert h'[257] != 0 || h'[258] != 0;
    SumChanged(h, i, b, 512);
    if 257 <= i < 263 { assert h'[257..263][i - 257] == b && h[257..263][i - 257] == h[i]; } else { assert h'[257..263] == h[257..263]; }
    if InChksum(i) {
      assert h'[148..156] == h[148..156][i - 148 := b] && h'[..100] == h[..100] && h'[124..136] == h[124..136];
    } else {
      assert h'[148..156] == h[148..156];
    }
  }

  // ----- round trip

  lemma {:induction false} CStringOf(f: seq<byte>, name: seq<byte>)
    requires |name| < |f| && IsCString(name) && f[|name|] == 0 && f[..|name|] == name
    ensures CString(f) == name
    decreases |name|
  {
    if name != [] {
      assert f[0] == name[0] && f[1..][..|name| - 1] == name[1..];
      CStringOf(f[1..], name[1..]);
    }
  }

  /** The fields of a made header that the parser looks at. */
  lemma BodyFields(name: seq<byte>, typeflag: byte, size: nat)
    requires |name| <= 99
    ensures var h := Body(name, typeflag, size);
            && (forall j :: 0 <= j < |name| ==> h[j] == name[j]) && (forall j :: |name| <= j < 100 ==> h[j] == 0)
            && h[124..136] == Octal(size, 11) + [0] && h[156] == typeflag
            && h[155] == 0 && h[345] == 0 && h[257..263] == USTAR && h[263] == 48 && h[264] == 48
  {
    var h := Body(name, typeflag, size);
    var field := Octal(size, 11) + [0];
    forall i | 0 <= i < 12 ensures h[124 + i] == field[i] { }
    assert h[124..136] == field;
    assert h[257..263] == USTAR;
  }

  lemma HeaderFields(name: seq<byte>, typeflag: byte, size: nat)
    requires |name| <= 99
    ensures var h, b := Header(name, typeflag, size), Body(name, typeflag, size);
            && h[148..156] == Octal(Checksum(b), 7) + [0] && Checksum(h) == Checksum(b)
            && (forall i :: 0 <= i < 512 && !InChksum(i) ==> h[i] == b[i])
  {
    BodyFields(name, typeflag, size);
    ChecksumStored(Body(name, typeflag, size), Header(name, typeflag, size));
  }

  /** Storing the checksum in its field does not change it. */
  lemma ChecksumStored(b: seq<byte>, h: seq<byte>)
    requires |b| == 512 && b[155] == 0 && h == Put(b, 148, Octal(Checksum(b), 7))
    ensures h[148..156] == Octal(Checksum(b), 7) + [0] && Checksum(h) == Checksum(b)
    ensures forall i :: 0 <= i < 512 && !InChksum(i) ==> h[i] == b[i]
  {
    SumIgnoresField(h, b, |h|);
    assert h[148..156] == Octal(Checksum(b), 7) + [0];
  }

  /** What should come back: the size only for regular files, and a negative one as an error. */
  function Expected(name: seq<byte>, typeflag: byte, size: int): ParseResult
  {
    if typeflag == DIRECTORY then Entry(name, typeflag, 0)
    else if size < 0 then FileTooLarge
    else Entry(name, typeflag, size)
  }

  /** A header with these fields parses to the entry they describe. */
  lemma ParsesTo(h: seq<byte>, name: seq<byte>, typeflag: byte, size: int)
    requires |h| == 512 && (typeflag == REGULAR || typeflag == DIRECTORY) && h[156] == typeflag
    requires -0x8000_0000 <= size < 0x8000_0000
    requires h[257..263] == USTAR && h[263] == 48 && h[264] == 48 && h[99] == 0 && h[345] == 0
    requires ParseFrom(h[148..156], 0, 0) == Some(Checksum(h)) && ParseFrom(h[124..136], 0, 0) == Some(AsUnsigned(size))
    requires CString(h[..100]) == name && Strip(name) == name
    ensures Parse(h) == Expected(name, typeflag, size)
  {
    assert h[156] != 0;
  }

  lemma MadeFields(name: seq<byte>, typeflag: byte, u: nat, h: seq<byte>)
    requires |name| <= 99 && IsCString(name) && u <= 0xffff_ffff && h == Header(name, typeflag, u)
    ensures h[156] == typeflag && h[257..263] == USTAR && h[263] == 48 && h[264] == 48 && h[99] == 0 && h[345] == 0
    ensures h[148..156] == Octal(Checksum(h), 7) + [0] && h[124..136] == Octal(u, 11) + [0]
    ensures CString(h[..100]) == name
  {
    var b := Body(name, typeflag, u);
    BodyFields(name, typeflag, u);
    HeaderFields(name, typeflag, u);
    assert h[257..263] == b[257..263] && h[124..136] == b[124..136];
    assert h[..100][..|name|] == name;
    CStringOf(h[..100], name);
  }

  lemma FieldsParse(name: seq<byte>, typeflag: byte, size: int, h: seq<byte>)
    requires |h| == 512 && (typeflag == REGULAR || typeflag == DIRECTORY) && Strip(name) == name
    requires -0x8000_0000 <= size < 0x8000_0000
    requires h[156] == typeflag && h[257..263] == USTAR && h[263] == 48 && h[264] == 48 && h[99] == 0 && h[345] == 0
    requires h[148..156] == Octal(Checksum(h), 7) + [0] && h[124..136] == Octal(AsUnsigned(size), 11) + [0]
    requires CString(h[..100]) == name
    ensures Parse(h) == Expected(name, typeflag, size)
  {
    FieldWidths(Checksum(h));
    OctalRoundTrip(Checksum(h), 7);
    FieldWidths(AsUnsigned(size));
    OctalRoundTrip(AsUnsigned(size), 11);
    ParsesTo(h, name, typeflag, size);
  }

  /** Parsing a made header gives back the stripped name, the type and, for regular files, the
      size: for every name that fits and every int size. A negative size comes back as an error,
      and only that. */
  lemma HeaderRoundTrip(fileName: seq<byte>, typeflag: byte, size: int)
    requires IsCString(fileName) && |Strip(fileName)| <= 99
    requires typeflag == REGULAR || typeflag == DIRECTORY
    requires -0x8000_0000 <= size < 0x8000_0000
    ensures Parse(Header(Strip(fileName), typeflag, AsUnsigned(size))) == Expected(Strip(fileName), typeflag, size)
  {
    MadeHeaderParses(fileName, typeflag, size, Header(Strip(fileName), typeflag, AsUnsigned(size)));
  }

  lemma MadeHeaderParses(fileName: seq<byte>, typeflag: byte, size: int, h: seq<byte>)
    requires IsCString(fileName) && |Strip(fileName)| <= 99
    requires typeflag == REGULAR || typeflag == DIRECTORY
    requires -0x8000_0000 <= size < 0x8000_0000
    requires h == Header(Strip(fileName), typeflag, AsUnsigned(size))
    ensures Parse(h) == Expected(Strip(fileName), typeflag, size)
  {
    StripIsSafe(fileName);
    MadeFields(Strip(fileName), typeflag, AsUnsigned(size), h);
    FieldsParse(Strip(fileName), typeflag, size, h);
  }
}
