/** Rationals, error checks and C strings: the helpers of src/av/utils.rs. */
module Utils {

  datatype Option<+T> = None | Some(value: T)

  type byte = x: int | 0 <= x < 256

  const I32_MIN: int := -0x8000_0000
  const I32_MAX: int := 0x7fff_ffff
  const I64_MIN: int := -0x8000_0000_0000_0000
  const I64_MAX: int := 0x7fff_ffff_ffff_ffff

  predicate IsI32(x: int) { I32_MIN <= x <= I32_MAX }
  predicate IsI64(x: int) { I64_MIN <= x <= I64_MAX }

  /** FFmpeg's AVRational: two i32 fields. Nothing in the type keeps `den` non-zero. */
  datatype Rational = Rational(num: int, den: int) {
    predicate Valid() { IsI32(num) && IsI32(den) }
  }

  /** av_inv_q: the fields swapped, with no validation. As a fraction the result is the
      reciprocal: r * n == 1 whenever neither field is zero. */
  function InvQ(n: Rational): (r: Rational)
    ensures r.Valid() <==> n.Valid()
    ensures r.num * n.num == r.den * n.den
    ensures n.num == 0 ==> r.den == 0
  {
    Rational(n.den, n.num)
  }

  /** Inverting twice gives back the original rational. */
  lemma InvQInvolutive(n: Rational)
    ensures InvQ(InvQ(n)) == n
  {
  }

  /** The result of check_error, and the code it prints (its only side effect). */
  datatype Checked = Checked(isError: bool, printed: Option<int>)

  /** check_error: an error is a negative response; only errors are printed. */
  function CheckError(response: int): (c: Checked)
    ensures c.isError <==> response < 0
    ensures c.printed.Some? <==> c.isError
    ensures c.printed.Some? ==> c.printed.value == response
  {
    if response < 0 then Checked(true, Some(response)) else Checked(false, None)
  }

  /** str_to_c_str: CString::new refuses (and `expect` panics on) a string with an
      interior NUL byte; otherwise the C string is the bytes followed by one NUL. */
  function StrToCStr(s: seq<byte>): (r: Option<seq<byte>>)
    ensures r.Some? <==> 0 !in s
    ensures r.Some? ==> |r.value| == |s| + 1 && r.value[|s|] == 0
  {
    if 0 in s then None else Some(s + [0])
  }

  /** The bytes of a C string up to (not including) its first NUL. */
  function UntilNul(c: seq<byte>): (s: seq<byte>)
    ensures 0 !in s && |s| <= |c|
  {
    if c == [] || c[0] == 0 then [] else [c[0]] + UntilNul(c[1..])
  }

  lemma {:induction false} UntilNulPrefix(s: seq<byte>, t: seq<byte>)
    requires 0 !in s
    ensures UntilNul(s + [0] + t) == s
  {
    if s != [] {
      assert (s + [0] + t)[1..] == s[1..] + [0] + t;
      UntilNulPrefix(s[1..], t);
    }
  }

  /** Reading a converted string back as a C string gives the original bytes. */
  lemma StrToCStrRoundTrip(s: seq<byte>)
    requires 0 !in s
    ensures StrToCStr(s).Some? && UntilNul(StrToCStr(s).value) == s
  {
    UntilNulPrefix(s, []);
    assert s + [0] + [] == s + [0];
  }
}
