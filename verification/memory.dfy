/**
 * The memory and C-string primitives of `util::Memory`.
 *
 * A raw pointer is a `Ptr`: an array and an offset into it. Bytes (`uint8`)
 * are `Byte`, characters (`char`, modelled as signed) are
 * `Char`. A C string at `at` is the run of characters from `at` up to
 * the first zero; the functions below give its length, its contents and the
 * outcome of comparing two of them, and each routine is proved against them.
 */
module Memory {

  newtype Byte = x: int | 0 <= x < 0x100
  newtype Char = x: int | -0x80 <= x < 0x80
  newtype Int32 = x: int | -0x8000_0000 <= x < 0x8000_0000

  /** A pointer: the memory block `mem` seen from offset `at`. */
  datatype Ptr<T> = Ptr(mem: array<T>, at: nat)

  /** `m` cells from `p` and `n` cells from `q` do not overlap. */
  predicate Disjoint<T>(p: Ptr<T>, m: nat, q: Ptr<T>, n: nat)
  {
    p.mem != q.mem || p.at + m <= q.at || q.at + n <= p.at
  }

  /** A terminating zero lies at or after `at` inside `s`. */
  ghost predicate IsCString(s: seq<Char>, at: nat)
  {
    exists k :: at <= k < |s| && s[k] == 0
  }

  /** Number of characters before the first zero at or after `at`. */
  function StrLen(s: seq<Char>, at: nat): (n: nat)
    requires IsCString(s, at)
    ensures at + n < |s| && s[at + n] == 0
    ensures forall k :: at <= k < at + n ==> s[k] != 0
    decreases |s| - at
  {
    if s[at] == 0 then 0 else 1 + StrLen(s, at + 1)
  }

  /** The characters of the C string at `at`, terminator excluded. */
  function CString(s: seq<Char>, at: nat): (r: seq<Char>)
    requires IsCString(s, at)
    ensures |r| == StrLen(s, at) && 0 !in r
  {
    s[at..at + StrLen(s, at)]
  }

  /**
   * How many leading positions of the strings at `i` in `a` and at `j` in `b`
   * agree on a non-zero character: at the returned offset the characters
   * differ or `a` has reached its terminator.
   */
  function Mismatch(a: seq<Char>, i: nat, b: seq<Char>, j: nat): (k: nat)
    requires IsCString(a, i) && IsCString(b, j)
    ensures i + k < |a| && j + k < |b|
    ensures a[i + k] == 0 || a[i + k] != b[j + k]
    decreases |a| - i
  {
    if a[i] == 0 || a[i] != b[j] then 0
    else
      assert b[j] != 0;
      1 + Mismatch(a, i + 1, b, j + 1)
  }

  /** Before the mismatch both strings hold the same non-zero characters. */
  lemma {:induction false} MismatchAgrees(a: seq<Char>, i: nat, b: seq<Char>, j: nat)
    requires IsCString(a, i) && IsCString(b, j)
    ensures forall m :: i <= m < i + Mismatch(a, i, b, j) ==> a[m] != 0 && a[m] == b[j + (m - i)]
    decreases |a| - i
  {
    if a[i] != 0 && a[i] == b[j] {
      assert b[j] != 0;
      MismatchAgrees(a, i + 1, b, j + 1);
      forall m | i < m < i + Mismatch(a, i, b, j) ensures a[m] != 0 && a[m] == b[j + (m - i)] {
        assert b[(j + 1) + (m - (i + 1))] == b[j + (m - i)];
      }
    }
  }

  /** The outcome of comparing two C strings: the difference of the characters at their first mismatch. */
  function Compare(a: seq<Char>, i: nat, b: seq<Char>, j: nat): (r: int)
    requires IsCString(a, i) && IsCString(b, j)
    ensures -0xFF <= r <= 0xFF
  {
    var k := Mismatch(a, i, b, j);
    a[i + k] as int - b[j + k] as int
  }

  /** `s` with the run `t` written over it from offset `at`. */
  function Overwrite<T>(s: seq<T>, at: nat, t: seq<T>): (r: seq<T>)
    requires at + |t| <= |s|
    ensures |r| == |s|
  {
    s[..at] + t + s[at + |t|..]
  }

  /** Inside the written run the result holds `t`; everywhere else it holds `s`. */
  lemma OverwriteAt<T>(s: seq<T>, at: nat, t: seq<T>)
    requires at + |t| <= |s|
    ensures forall k :: 0 <= k < |s| ==> Overwrite(s, at, t)[k] == if at <= k < at + |t| then t[k - at] else s[k]
  {
  }

  /** Writing one more element right after a written run extends the run. */
  lemma OverwriteStep<T>(s: seq<T>, at: nat, t: seq<T>, x: T)
    requires at + |t| < |s|
    ensures Overwrite(s, at, t)[at + |t| := x] == Overwrite(s, at, t + [x])
  {
    var r, r' := Overwrite(s, at, t)[at + |t| := x], Overwrite(s, at, t + [x]);
    OverwriteAt(s, at, t);
    OverwriteAt(s, at, t + [x]);
    forall k | 0 <= k < |s| ensures r[k] == r'[k] {
      if at <= k < at + |t| {
        assert (t + [x])[k - at] == t[k - at];
      }
    }
  }

  /** Writing element `i` of `t` right after its first `i` elements extends the written prefix by one. */
  lemma OverwriteNext<T>(s: seq<T>, at: nat, t: seq<T>, i: nat)
    requires i < |t| && at + |t| <= |s|
    ensures Overwrite(s, at, t[..i])[at + i := t[i]] == Overwrite(s, at, t[..i + 1])
  {
    OverwriteStep(s, at, t[..i], t[i]);
    assert t[..i] + [t[i]] == t[..i + 1];
  }

  /** `memcpy`: copy `len` bytes from `src` to `dst` and give back `dst`. */
  method Memcpy(dst: Ptr<Byte>, src: Ptr<Byte>, len: nat) returns (r: Ptr<Byte>)
    requires dst.at + len <= dst.mem.Length && src.at + len <= src.mem.Length
    requires Disjoint(dst, len, src, len)
    modifies dst.mem
    ensures r == dst
    ensures dst.mem[..] == Overwrite(old(dst.mem[..]), dst.at, old(src.mem[src.at..src.at + len]))
  {
    ghost var text := src.mem[src.at..src.at + len];
    var i := 0;
    while i < len
      invariant i <= len
      invariant dst.mem[..] == Overwrite(old(dst.mem[..]), dst.at, text[..i])
      invariant forall k :: 0 <= k < len ==> src.mem[src.at + k] == text[k]
    {
      OverwriteNext(old(dst.mem[..]), dst.at, text, i);
      dst.mem[dst.at + i] := src.mem[src.at + i];
      i := i + 1;
    }
    assert text[..len] == text;
    return dst;
  }

  /** The conversion of an `int32` to an unsigned byte: the value modulo 256. */
  function ToByte(v: Int32): Byte
  {
    (v as int % 0x100) as Byte
  }

  /** `n` copies of `x`. */
  function Repeat(x: Byte, n: nat): (r: seq<Byte>)
    ensures |r| == n && forall k :: 0 <= k < n ==> r[k] == x
  {
    seq(n, _ => x)
  }

  /** `memset`: fill `len` bytes from `dst` with `val` converted to an unsigned byte, and give back `dst`. */
  method Memset(dst: Ptr<Byte>, val: Int32, len: nat) returns (r: Ptr<Byte>)
    requires dst.at + len <= dst.mem.Length
    modifies dst.mem
    ensures r == dst
    ensures dst.mem[..] == Overwrite(old(dst.mem[..]), dst.at, Repeat(ToByte(val), len))
  {
    var uc := ToByte(val);
    ghost var fill := Repeat(uc, len);
    var su, n := dst.at, len;
    while 0 < n
      invariant 0 <= n <= len && su == dst.at + (len - n)
      invariant dst.mem[..] == Overwrite(old(dst.mem[..]), dst.at, fill[..len - n])
    {
      OverwriteNext(old(dst.mem[..]), dst.at, fill, len - n);
      dst.mem[su] := uc;
      su, n := su + 1, n - 1;
    }
    assert fill[..len] == fill;
    return dst;
  }

  /** `strlen`: count the characters before the terminator. */
  method Strlen(str: Ptr<Char>) returns (n: nat)
    requires IsCString(str.mem[..], str.at)
    ensures n == StrLen(str.mem[..], str.at)
  {
    ghost var len := StrLen(str.mem[..], str.at);
    n := 0;
    while str.mem[str.at + n] != 0
      invariant n <= len
      decreases len - n
    {
      n := n + 1;
    }
  }

  /**
   * The copy loop `strcpy` and `strcat` share: copy characters from `src` to
   * `dst` up to and including the first zero.
   */
  method CopyThrough(dst: Ptr<Char>, src: Ptr<Char>, ghost text: seq<Char>)
    requires 0 < |text| && src.at + |text| <= src.mem.Length && dst.at + |text| <= dst.mem.Length
    requires forall k :: 0 <= k < |text| ==> src.mem[src.at + k] == text[k]
    requires text[|text| - 1] == 0 && forall k :: 0 <= k < |text| - 1 ==> text[k] != 0
    requires Disjoint(dst, |text|, src, |text|)
    modifies dst.mem
    ensures dst.mem[..] == Overwrite(old(dst.mem[..]), dst.at, text)
  {
    var i := 0;
    while true
      invariant 0 <= i < |text|
      invariant dst.mem[..] == Overwrite(old(dst.mem[..]), dst.at, text[..i])
      invariant forall k :: 0 <= k < |text| ==> src.mem[src.at + k] == text[k]
      decreases |text| - i
    {
      var c := src.mem[src.at + i];
      OverwriteNext(old(dst.mem[..]), dst.at, text, i);
      dst.mem[dst.at + i] := c;
      if c == 0 {
        assert i + 1 == |text| && text[..i + 1] == text;
        return;
      }
      i := i + 1;
    }
  }

  /**
   * `strcpy`: copy the C string at `src`, terminator included, to `dst` and
   * give back `dst`; the destination then holds the same string.
   */
  method Strcpy(dst: Ptr<Char>, src: Ptr<Char>) returns (r: Ptr<Char>)
    requires IsCString(src.mem[..], src.at)
    requires dst.at + StrLen(src.mem[..], src.at) < dst.mem.Length
    requires Disjoint(dst, StrLen(src.mem[..], src.at) + 1, src, StrLen(src.mem[..], src.at) + 1)
    modifies dst.mem
    ensures r == dst
    ensures dst.mem[..] == Overwrite(old(dst.mem[..]), dst.at, old(src.mem[src.at..src.at + StrLen(src.mem[..], src.at) + 1]))
    ensures IsCString(dst.mem[..], dst.at) && CString(dst.mem[..], dst.at) == old(CString(src.mem[..], src.at))
  {
    ghost var len := StrLen(src.mem[..], src.at);
    ghost var text := src.mem[src.at..src.at + len + 1];
    CopyFacts(src, len, text);
    CopyThrough(dst, src, text);
    WrittenString(old(dst.mem[..]), dst.at, text);
    return dst;
  }

  /**
   * `strcat`: append the C string at `src`, terminator included, at the
   * terminator of the C string at `dst`, and give back `dst`.
   */
  method Strcat(dst: Ptr<Char>, src: Ptr<Char>) returns (r: Ptr<Char>)
    requires IsCString(dst.mem[..], dst.at) && IsCString(src.mem[..], src.at)
    requires dst.at + StrLen(dst.mem[..], dst.at) + StrLen(src.mem[..], src.at) < dst.mem.Length
    requires Disjoint(Ptr(dst.mem, dst.at + StrLen(dst.mem[..], dst.at)), StrLen(src.mem[..], src.at) + 1,
                      src, StrLen(src.mem[..], src.at) + 1)
    modifies dst.mem
    ensures r == dst
    ensures dst.mem[..] == Overwrite(old(dst.mem[..]), dst.at + old(StrLen(dst.mem[..], dst.at)),
                                     old(src.mem[src.at..src.at + StrLen(src.mem[..], src.at) + 1]))
    ensures IsCString(dst.mem[..], dst.at)
    ensures CString(dst.mem[..], dst.at) == old(CString(dst.mem[..], dst.at)) + old(CString(src.mem[..], src.at))
  {
    ghost var len := StrLen(src.mem[..], src.at);
    ghost var text := src.mem[src.at..src.at + len + 1];
    CopyFacts(src, len, text);
    ghost var head := StrLen(dst.mem[..], dst.at);
    var e := 0;
    while dst.mem[dst.at + e] != 0
      invariant e <= head
      decreases head - e
    {
      e := e + 1;
    }
    assert e == head;
    CopyThrough(Ptr(dst.mem, dst.at + e), src, text);
    AppendedString(old(dst.mem[..]), dst.at, text);
    return dst;
  }

  /** `strcmp`: compare two C strings character by character up to the first mismatch or the end of the first. */
  method Strcmp(str1: Ptr<Char>, str2: Ptr<Char>) returns (res: Int32)
    requires IsCString(str1.mem[..], str1.at) && IsCString(str2.mem[..], str2.at)
    ensures res as int == Compare(str1.mem[..], str1.at, str2.mem[..], str2.at)
  {
    ghost var k := Mismatch(str1.mem[..], str1.at, str2.mem[..], str2.at);
    MismatchAgrees(str1.mem[..], str1.at, str2.mem[..], str2.at);
    var i := 0;
    while true
      invariant i <= k
      decreases k - i
    {
      var c1 := str1.mem[str1.at + i] as Int32;
      res := c1 - str2.mem[str2.at + i] as Int32;
      if c1 == 0 || res != 0 {
        assert i == k;
        return;
      }
      i := i + 1;
    }
  }

  /** The C string at `src`, terminator included, is a terminated run whose only zero is the last. */
  lemma CopyFacts(src: Ptr<Char>, len: nat, text: seq<Char>)
    requires IsCString(src.mem[..], src.at) && len == StrLen(src.mem[..], src.at)
    requires text == src.mem[src.at..src.at + len + 1]
    ensures forall k :: 0 <= k < |text| ==> src.mem[src.at + k] == text[k]
    ensures text[len] == 0 && forall k :: 0 <= k < len ==> text[k] != 0
    ensures text[..len] == CString(src.mem[..], src.at) && 0 !in text[..len]
  {
    assert text[..len] == CString(src.mem[..], src.at);
    forall k | 0 <= k < len ensures text[k] != 0 { assert text[..len][k] == text[k]; }
  }

  /** Memory holding the terminated run `t` from `at` holds a C string there equal to `t` minus its terminator. */
  lemma StringAt(s: seq<Char>, at: nat, t: seq<Char>)
    requires |t| > 0 && at + |t| <= |s| && t[|t| - 1] == 0 && 0 !in t[..|t| - 1]
    requires forall k :: at <= k < at + |t| ==> s[k] == t[k - at]
    ensures IsCString(s, at) && CString(s, at) == t[..|t| - 1]
  {
    assert s[at + |t| - 1] == 0;
    var n := StrLen(s, at);
    assert n <= |t| - 1;
  }

  /** Writing a terminated run at `at` leaves a C string there equal to the run minus its terminator. */
  lemma WrittenString(s: seq<Char>, at: nat, t: seq<Char>)
    requires |t| > 0 && at + |t| <= |s| && t[|t| - 1] == 0 && 0 !in t[..|t| - 1]
    ensures IsCString(Overwrite(s, at, t), at) && CString(Overwrite(s, at, t), at) == t[..|t| - 1]
  {
    OverwriteAt(s, at, t);
    StringAt(Overwrite(s, at, t), at, t);
  }

  /**
   * Writing a terminated run over the terminator of the C string at `at`
   * leaves there the concatenation of that string and the run minus its terminator.
   */
  lemma AppendedString(s: seq<Char>, at: nat, t: seq<Char>)
    requires IsCString(s, at) && at + StrLen(s, at) + |t| <= |s|
    requires |t| > 0 && t[|t| - 1] == 0 && 0 !in t[..|t| - 1]
    ensures var s' := Overwrite(s, at + StrLen(s, at), t);
      IsCString(s', at) && CString(s', at) == CString(s, at) + t[..|t| - 1]
  {
    var n := StrLen(s, at);
    var head := CString(s, at);
    var joined := head + t;
    var s' := Overwrite(s, at + n, t);
    OverwriteAt(s, at + n, t);
    forall k | at <= k < at + n ensures s'[k] == joined[k - at] {
      assert s'[k] == s[k] && joined[k - at] == head[k - at];
    }
    forall k | at + n <= k < at + n + |t| ensures s'[k] == joined[k - at] {
      assert s'[k] == t[k - (at + n)] && joined[k - at] == t[k - (at + n)];
    }
    assert joined[..|joined| - 1] == head + t[..|t| - 1];
    StringAt(s', at, joined);
  }

  /** A C string starting at its terminator is empty. */
  lemma CStringEmpty(s: seq<Char>, at: nat)
    requires IsCString(s, at) && s[at] == 0
    ensures CString(s, at) == []
  {
  }

  /** A C string starting at a non-zero character is that character followed by the C string after it. */
  lemma CStringCons(s: seq<Char>, at: nat)
    requires IsCString(s, at) && s[at] != 0
    ensures IsCString(s, at + 1) && CString(s, at) == [s[at]] + CString(s, at + 1)
  {
    var k :| at <= k < |s| && s[k] == 0;
    assert at + 1 <= k;
  }

  /** The comparison is zero exactly when the two C strings are equal. */
  lemma {:induction false} CompareZero(a: seq<Char>, i: nat, b: seq<Char>, j: nat)
    requires IsCString(a, i) && IsCString(b, j)
    ensures Compare(a, i, b, j) == 0 <==> CString(a, i) == CString(b, j)
    decreases |a| - i
  {
    if a[i] == 0 {
      CStringEmpty(a, i);
      if b[j] != 0 {
        CStringCons(b, j);
      }
    } else if a[i] != b[j] {
      CStringCons(a, i);
      if b[j] == 0 {
        CStringEmpty(b, j);
      } else {
        CStringCons(b, j);
        assert CString(b, j)[0] == b[j];
      }
    } else {
      CStringCons(a, i);
      CStringCons(b, j);
      CompareZero(a, i + 1, b, j + 1);
      assert Compare(a, i, b, j) == Compare(a, i + 1, b, j + 1);
      assert CString(a, i)[1..] == CString(a, i + 1) && CString(b, j)[1..] == CString(b, j + 1);
    }
  }

  /** Swapping the operands negates the comparison. */
  lemma {:induction false} CompareAntisymmetric(a: seq<Char>, i: nat, b: seq<Char>, j: nat)
    requires IsCString(a, i) && IsCString(b, j)
    ensures Compare(a, i, b, j) == -Compare(b, j, a, i)
    decreases |a| - i
  {
    if a[i] != 0 && a[i] == b[j] {
      CompareAntisymmetric(a, i + 1, b, j + 1);
    }
  }
}
