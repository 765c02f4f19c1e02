/**
 Variable-length quantities: base 128, most significant group first, every byte
 but the last carrying the continuation bit.  The writers build the whole
 encoding inside one 64-bit machine word (`format_vlq`, `WriteVarLen`); the
 readers accumulate it group by group (`extract_vlq`, `readvarinum`).
 */
module Vlq {
  import opened Bytes

  const WORD: nat := 0x1_0000_0000_0000_0000

  /** `unsigned long` on an LP64 machine. */
  type Word = w: int | 0 <= w < WORD witness 0

  // ---------------------------------------------------------------- meaning

  /** A byte string is one quantity: only its last byte lacks the continuation bit. */
  ghost predicate IsVlq(s: seq<Byte>) {
    && s != []
    && s[|s| - 1] < 128
    && forall i :: 0 <= i < |s| - 1 ==> s[i] >= 128
  }

  ghost function Value(s: seq<Byte>): nat {
    if s == [] then 0 else Value(s[..|s| - 1]) * 128 + s[|s| - 1] % 128
  }

  /** No byte of padding in front. */
  ghost predicate Minimal(s: seq<Byte>) {
    IsVlq(s) && s[0] != 128
  }

  // ---------------------------------------------------------------- encoder

  function Groups(v: nat): seq<Byte> {
    if v == 0 then [] else Groups(v / 128) + [128 + v % 128]
  }

  function Encode(v: nat): (r: seq<Byte>)
    ensures r != []
  {
    Groups(v / 128) + [v % 128]
  }

  lemma ValueSnoc(s: seq<Byte>, b: Byte)
    ensures Value(s + [b]) == Value(s) * 128 + b % 128
  {
    assert (s + [b])[..|s|] == s;
  }

  lemma Split128(v: nat)
    ensures v / 128 * 128 + v % 128 == v && (128 + v % 128) % 128 == v % 128
    ensures v > 0 ==> v / 128 < v
  {
  }

  lemma Join128(v: nat, d: nat)
    requires d < 128
    ensures (v * 128 + d) / 128 == v && (v * 128 + d) % 128 == d
  {
  }

  /** All bytes carry the continuation bit, and there is no padding in front. */
  ghost predicate Leading(s: seq<Byte>) {
    (forall i :: 0 <= i < |s| ==> s[i] >= 128) && (s != [] ==> s[0] != 128)
  }

  lemma LeadingSnoc(s: seq<Byte>, b: Byte)
    requires Leading(s) && b >= 128 && (s == [] ==> b != 128)
    ensures Leading(s + [b])
  {
  }

  lemma GroupsUnfold(v: nat)
    requires v > 0
    ensures Groups(v) == Groups(v / 128) + [128 + v % 128] && (v / 128 > 0 ==> Groups(v / 128) != [])
    ensures v / 128 == 0 ==> v % 128 > 0
  {
  }

  lemma {:induction false} GroupsShape(v: nat)
    ensures Leading(Groups(v)) && Value(Groups(v)) == v
  {
    if v > 0 {
      hide *;
      GroupsUnfold(v);
      Split128(v);
      GroupsShape(v / 128);
      GroupsNone();
      ValueSnoc(Groups(v / 128), 128 + v % 128);
      LeadingSnoc(Groups(v / 128), 128 + v % 128);
    }
  }

  lemma GroupsNone()
    ensures Groups(0) == [] && Value([]) == 0 && Leading([])
  {
  }

  /** The encoding is one minimal quantity denoting its argument. */
  lemma {:induction false} EncodeMeaning(v: nat)
    ensures Minimal(Encode(v)) && Value(Encode(v)) == v
  {
    GroupsShape(v / 128);
    ValueSnoc(Groups(v / 128), v % 128);
    Split128(v);
  }

  lemma {:induction false} ValueDeterminesGroups(s: seq<Byte>)
    requires Leading(s)
    ensures Groups(Value(s)) == s
  {
    if s == [] {
    } else {
      hide *;
      var t, b := s[..|s| - 1], s[|s| - 1];
      assert s == t + [b];
      LeadingParts(t, b);
      ValueDeterminesGroups(t);
      GroupsNone();
      ValueSnoc(t, b);
      Join128(Value(t), b - 128);
      Split128(b);
      if t == [] {
        GroupsUnfold(Value(s));
      } else {
        GroupsNonZero(Value(t));
        GroupsUnfold(Value(s));
      }
    }
  }

  lemma LeadingParts(t: seq<Byte>, b: Byte)
    requires Leading(t + [b])
    ensures Leading(t) && b >= 128 && b % 128 == b - 128 && (t == [] ==> b > 128)
  {
    var s := t + [b];
    assert s[|t|] == b;
    assert forall i :: 0 <= i < |t| ==> t[i] == s[i];
  }

  lemma GroupsNonZero(v: nat)
    requires Groups(v) != []
    ensures v > 0
  {
  }

  /** Minimal quantities are in bijection with the naturals. */
  lemma {:induction false} MinimalIsEncode(s: seq<Byte>)
    requires Minimal(s)
    ensures s == Encode(Value(s))
  {
    var t, b := s[..|s| - 1], s[|s| - 1];
    assert s == t + [b];
    assert Leading(t) by {
      assert forall i :: 0 <= i < |t| ==> t[i] == s[i];
    }
    MinimalParts(t, b);
  }

  lemma MinimalParts(t: seq<Byte>, b: Byte)
    requires Leading(t) && b < 128
    ensures t + [b] == Encode(Value(t + [b]))
  {
    hide Value, Groups, Leading;
    ValueSnoc(t, b);
    Join128(Value(t), b);
    ValueDeterminesGroups(t);
  }

  // -------------------------------------------------------- encoding length

  function Pow128(n: nat): nat {
    if n == 0 then 1 else 128 * Pow128(n - 1)
  }

  lemma {:induction false} GroupsLength(v: nat, n: nat)
    ensures |Groups(v)| <= n <==> v < Pow128(n)
  {
    if v == 0 {
      Pow128Positive(n);
    } else if n > 0 {
      GroupsLength(v / 128, n - 1);
    }
  }

  lemma {:induction false} Pow128Positive(n: nat)
    ensures Pow128(n) > 0
  {
    if n > 0 {
      Pow128Positive(n - 1);
    }
  }

  /** An encoding has at most n bytes exactly when the value fits in 7n bits. */
  lemma EncodeLength(v: nat, n: nat)
    requires n > 0
    ensures |Encode(v)| <= n <==> v < Pow128(n)
  {
    GroupsLength(v / 128, n - 1);
  }

  lemma Pow128Values()
    ensures Pow128(4) == 0x1000_0000
    ensures Pow128(8) == 0x100_0000_0000_0000
    ensures Pow128(9) == 0x8000_0000_0000_0000
    ensures Pow128(10) > WORD
  {
    assert Pow128(4) == 128 * 128 * 128 * 128;
    assert Pow128(8) == 128 * 128 * 128 * 128 * Pow128(4);
    assert Pow128(10) == 128 * 128 * Pow128(8);
  }

  // ------------------------------------------------------ the packed writer

  /** The machine word holding `s`, first byte in the low eight bits. */
  ghost function Pack(s: seq<Byte>): nat {
    if s == [] then 0 else s[0] + 256 * Pack(s[1..])
  }

  /** What 64 bits retain of an encoding: the first eight bytes. */
  function Kept(s: seq<Byte>): seq<Byte> {
    if |s| <= 8 then s else s[..8]
  }

  lemma {:induction false} PackBound(s: seq<Byte>, n: nat)
    requires |s| <= n
    ensures Pack(s) < Pow256(n)
  {
    if s == [] {
      Pow256Positive(n);
    } else {
      PackBound(s[1..], n - 1);
    }
  }

  ghost function Pow256(n: nat): nat {
    if n == 0 then 1 else 256 * Pow256(n - 1)
  }

  lemma {:induction false} Pow256Positive(n: nat)
    ensures Pow256(n) > 0
  {
    if n > 0 {
      Pow256Positive(n - 1);
    }
  }

  lemma {:induction false} PackSplit(s: seq<Byte>, n: nat) returns (high: nat)
    requires n <= |s|
    ensures Pack(s) == Pack(s[..n]) + Pow256(n) * high
  {
    if n == 0 {
      high := Pack(s);
      assert s[..0] == [];
    } else {
      high := PackSplit(s[1..], n - 1);
      assert s[1..][..n - 1] == s[..n][1..];
      assert Pow256(n) * high == 256 * (Pow256(n - 1) * high);
    }
  }

  lemma PackKept(s: seq<Byte>)
    ensures Pack(s) % WORD == Pack(Kept(s))
  {
    assert Pow256(8) == WORD by {
      assert Pow256(4) == 256 * 256 * 256 * 256;
      assert Pow256(8) == 256 * 256 * 256 * 256 * Pow256(4);
    }
    PackBound(Kept(s), 8);
    if |s| > 8 {
      var high := PackSplit(s, 8);
      ModMultiple(Pack(Kept(s)), high);
    }
  }

  lemma ModMultiple(a: nat, k: nat)
    requires a < WORD
    ensures (a + WORD * k) % WORD == a
  {
  }

  lemma PackShift(s: seq<Byte>, b: Byte)
    ensures (Pack(s) % WORD * 256) % WORD + b < WORD
    ensures (Pack(s) % WORD * 256) % WORD + b == Pack([b] + s) % WORD
  {
    var p := Pack(s);
    assert ([b] + s)[1..] == s;
    var q, r := p / WORD, p % WORD;
    assert p == q * WORD + r;
    var x := r * 256;
    var q2, r2 := x / WORD, x % WORD;
    assert x == q2 * WORD + r2;
    assert r2 % 256 == 0 by {
      assert WORD == 256 * 0x100_0000_0000_0000;
      assert r2 == 256 * (r - q2 * 0x100_0000_0000_0000);
    }
    assert r2 + b < WORD;
    assert b + 256 * p == (r2 + b) + WORD * (256 * q + q2);
    ModMultiple(r2 + b, 256 * q + q2);
  }

  /** First loop of both writers: push the groups into one word, least significant first. */
  method PackGroups(value: Word) returns (buffer: Word)
    ensures buffer == Pack(Kept(Encode(value)))
  {
    buffer := value % 128;
    var rest: nat := value / 128;
    ghost var done: seq<Byte> := [value % 128];
    assert done[1..] == [];
    while rest != 0
      invariant Encode(value) == Groups(rest) + done
      invariant buffer == Pack(done) % WORD
      decreases rest
    {
      PackShift(done, 128 + rest % 128);
      buffer := (buffer * 256) % WORD;
      buffer := buffer + (rest % 128 + 128);
      done := [128 + rest % 128] + done;
      rest := rest / 128;
    }
    assert done == Encode(value);
    PackKept(done);
  }

  /** The bytes either writer emits for an arbitrary 64-bit value. */
  function Emitted(value: nat): seq<Byte> {
    if |Encode(value)| <= 8 then Encode(value) else Encode(value)[..8] + [0]
  }

  lemma PackHead(word: seq<Byte>, k: nat)
    requires k < |word|
    ensures Pack(word[k..]) % 256 == word[k] && Pack(word[k..]) / 256 == Pack(word[k + 1..])
    ensures word[..k + 1] == word[..k] + [word[k]]
  {
    assert word[k..][1..] == word[k + 1..];
    assert Pack(word[k..]) == word[k] + 256 * Pack(word[k + 1..]);
  }

  /** Of the bytes a word keeps, only the last of a whole encoding lacks the continuation bit. */
  lemma KeptShape(value: nat)
    ensures var word := Kept(Encode(value));
            && word != [] && word[..|word|] == word && Pack(word[|word|..]) == 0
            && (forall k :: 0 <= k < |word| && word[k] < 128 ==>
                k + 1 == |word| && word == Encode(value) == Emitted(value))
            && (word[|word| - 1] >= 128 ==> Emitted(value) == word + [0])
  {
    EncodeMeaning(value);
  }

  /** `format_vlq`. */
  method FormatVlq(value: Word) returns (buf: seq<Byte>)
    ensures buf == Emitted(value)
  {
    hide *;
    var buffer := PackGroups(value);
    ghost var word := Kept(Encode(value));
    KeptShape(value);
    assert word[0..] == word;
    buf := [];
    while true
      invariant |buf| <= |word| && buf == word[..|buf|]
      invariant |buf| == |word| ==> word[|word| - 1] >= 128
      invariant buffer == Pack(word[|buf|..])
      decreases |word| - |buf|
    {
      ghost var k := |buf|;
      if k < |word| {
        PackHead(word, k);
      }
      buf := buf + [buffer % 256];
      if buffer % 256 >= 128 {
        buffer := buffer / 256;
      } else {
        break;
      }
    }
  }

  /** The writers are right exactly on the values whose encoding survives in 64 bits. */
  lemma WriterCorrectIff(value: Word)
    ensures Emitted(value) == Encode(value) <==>
            value < 0x100_0000_0000_0000 || (value < 0x8000_0000_0000_0000 && value % 128 == 0)
  {
    Pow128Values();
    EncodeLength(value, 8);
    EncodeLength(value, 9);
    var e := Encode(value);
    if |e| == 9 {
      assert e[8] == value % 128;
      assert e[..8] + [e[8]] == e;
      assert Emitted(value)[8] == 0;
    }
  }

  // ------------------------------------------------------------ the readers

  /** Accumulate groups until a byte without continuation bit: value and bytes consumed. */
  function Scan(s: seq<Byte>, acc: nat := 0): (r: Option<(nat, nat)>)
    ensures r.Some? ==> 1 <= r.value.1 <= |s|
  {
    if s == [] then None
    else if s[0] < 128 then Some((acc * 128 + s[0], 1))
    else
      var r := Scan(s[1..], acc * 128 + s[0] % 128);
      if r.None? then None else Some((r.value.0, r.value.1 + 1))
  }

  /** The first byte says whether the quantity goes on. */
  lemma VlqHead(s: seq<Byte>, n: nat)
    requires 1 <= n <= |s| && IsVlq(s[..n])
    ensures s[0] < 128 ==> n == 1
    ensures s[0] >= 128 ==> n > 1 && IsVlq(s[1..][..n - 1])
  {
    assert s[..n][0] == s[0];
    assert s[1..][..n - 1] == s[..n][1..];
  }

  lemma ScanHead(s: seq<Byte>, acc: nat)
    requires s != []
    ensures s[0] < 128 ==> s[0] % 128 == s[0] && Scan(s, acc) == Some((acc * 128 + s[0] % 128, 1))
    ensures s[0] >= 128 ==>
              var r := Scan(s[1..], acc * 128 + s[0] % 128);
              Scan(s, acc) == if r == None then None else Some((r.value.0, r.value.1 + 1))
  {
  }

  lemma {:induction false} ScanFinds(done: seq<Byte>, s: seq<Byte>, n: nat)
    requires 1 <= n <= |s| && IsVlq(s[..n])
    ensures Scan(s, Value(done)) == Some((Value(done + s[..n]), n))
    decreases |s|
  {
    hide *;
    VlqHead(s, n);
    ValueSnoc(done, s[0]);
    ScanHead(s, Value(done));
    if s[0] >= 128 {
      ScanFinds(done + [s[0]], s[1..], n - 1);
      assert done + [s[0]] + s[1..][..n - 1] == done + s[..n];
    } else {
      assert s[..1] == [s[0]];
    }
  }

  lemma {:induction false} ScanFound(s: seq<Byte>, acc: nat)
    requires Scan(s, acc).Some?
    ensures IsVlq(s[..Scan(s, acc).value.1])
  {
    if s[0] >= 128 {
      ScanFound(s[1..], acc * 128 + s[0] % 128);
      var m := Scan(s, acc).value.1 - 1;
      assert s[..m + 1] == [s[0]] + s[1..][..m];
    }
  }

  /** The readers return (v, n) exactly when the first n bytes are a quantity of value v. */
  lemma ScanMeaning(s: seq<Byte>, v: nat, n: nat)
    ensures Scan(s) == Some((v, n)) <==> (n <= |s| && IsVlq(s[..n]) && Value(s[..n]) == v)
  {
    var r := Scan(s);
    if r.Some? {
      ScanFound(s, 0);
      ScanFinds([], s, r.value.1);
      assert [] + s[..r.value.1] == s[..r.value.1];
    }
    if n <= |s| && IsVlq(s[..n]) {
      ScanFinds([], s, n);
      assert [] + s[..n] == s[..n];
    }
  }

  /** Reading inverts writing and stops right after the quantity, whatever follows. */
  lemma ScanEncode(v: nat, rest: seq<Byte>)
    ensures Scan(Encode(v) + rest) == Some((v, |Encode(v)|))
  {
    EncodeMeaning(v);
    assert (Encode(v) + rest)[..|Encode(v)|] == Encode(v);
    ScanMeaning(Encode(v) + rest, v, |Encode(v)|);
  }

  datatype Extracted = Extracted(value: nat, len: nat) | EndOfBuffer | TooLong

  /** What `extract_vlq` reports: at most four bytes are supported. */
  function Extraction(buf: seq<Byte>): Extracted {
    match Scan(buf)
    case None => EndOfBuffer
    case Some((v, n)) => if n > 4 then TooLong else Extracted(v, n)
  }

  /** `extract_vlq`. */
  method ExtractVlq(buf: seq<Byte>) returns (r: Extracted)
    requires buf != []
    ensures r == Extraction(buf)
  {
    var val: nat, c: nat := 0, 0;
    while true
      invariant 0 <= c <= |buf| && val >= 0
      invariant Scan(buf) == match Scan(buf[c..], val)
                             case None => None
                             case Some((v, n)) => Some((v, n + c))
      decreases |buf| - c
    {
      if c >= |buf| {
        return EndOfBuffer;
      }
      assert buf[c..][1..] == buf[c + 1..];
      val := val * 128 + (buf[c] as int) % 128;
      if buf[c] >= 128 {
        c := c + 1;
      } else {
        break;
      }
    }
    var len := c + 1;
    if len > 4 {
      return TooLong;
    }
    return Extracted(val, len);
  }

  /** `extract_vlq` recovers an encoding exactly when it fits in four bytes. */
  lemma ExtractEncode(v: nat, rest: seq<Byte>)
    ensures Extraction(Encode(v) + rest) ==
            if v < 0x1000_0000 then Extracted(v, |Encode(v)|) else TooLong
  {
    ScanEncode(v, rest);
    Pow128Values();
    EncodeLength(v, 4);
  }
}
