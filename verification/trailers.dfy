/** `toGrpcTrailers`, the same rule in the runtime's and the sdk's
    Android helpers: the status comes from the `grpc-status` header read as
    a decimal Int (`UNKNOWN` when the header is missing or not a number),
    the message is the `grpc-message` header, and `raw` joins every
    header's values with commas.

    Headers are given as OkHttp's `toMultimap` groups them: each (already
    lower-case) name with its values in arrival order; `headers[name]` is
    the last of them. `toIntOrNull` is Kotlin's decimal parse, written out
    below with its sign handling and its Int overflow check. */
module Trailers {
  import opened KotlinInt
  import opened Wrappers
  import opened GrpcStatus
  import opened Strings

  /** `GrpcTrailers(status, message, raw)`. */
  datatype GrpcTrailers = GrpcTrailers(status: Status, message: Option<string>, raw: map<string, string>)

  /** Header values by name; `toMultimap` never holds a name without a value. */
  type Headers = map<string, seq<string>>

  /** `headers[name]`: the last value under `name`, or null. */
  function Get(h: Headers, name: string): Option<string> {
    if name in h && |h[name]| > 0 then Some(h[name][|h[name]| - 1]) else None
  }

  // ---------------------------------------------------------------------
  // Decimal numbers
  // ---------------------------------------------------------------------

  /** The zero of the run of ten decimal digits (Unicode category Nd)
      that holds `c`, for the runs of the Basic Multilingual Plane. A
      Kotlin `Char` is one UTF-16 unit, and `toIntOrNull` takes a digit's
      value from `Character.digit(c, 10)`, which accepts exactly these. */
  function DigitZero(c: char): (z: Option<int>)
    ensures z.Some? ==> z.value <= c as int < z.value + 10
  {
    var n := c as int;
    if 0x0030 <= n < 0x003A then Some(0x0030)
    else if 0x0660 <= n < 0x066A then Some(0x0660)
    else if 0x06F0 <= n < 0x06FA then Some(0x06F0)
    else if 0x07C0 <= n < 0x07CA then Some(0x07C0)
    else if 0x0966 <= n < 0x0970 then Some(0x0966)
    else if 0x09E6 <= n < 0x09F0 then Some(0x09E6)
    else if 0x0A66 <= n < 0x0A70 then Some(0x0A66)
    else if 0x0AE6 <= n < 0x0AF0 then Some(0x0AE6)
    else if 0x0B66 <= n < 0x0B70 then Some(0x0B66)
    else if 0x0BE6 <= n < 0x0BF0 then Some(0x0BE6)
    else if 0x0C66 <= n < 0x0C70 then Some(0x0C66)
    else if 0x0CE6 <= n < 0x0CF0 then Some(0x0CE6)
    else if 0x0D66 <= n < 0x0D70 then Some(0x0D66)
    else if 0x0DE6 <= n < 0x0DF0 then Some(0x0DE6)
    else if 0x0E50 <= n < 0x0E5A then Some(0x0E50)
    else if 0x0ED0 <= n < 0x0EDA then Some(0x0ED0)
    else if 0x0F20 <= n < 0x0F2A then Some(0x0F20)
    else if 0x1040 <= n < 0x104A then Some(0x1040)
    else if 0x1090 <= n < 0x109A then Some(0x1090)
    else if 0x17E0 <= n < 0x17EA then Some(0x17E0)
    else if 0x1810 <= n < 0x181A then Some(0x1810)
    else if 0x1946 <= n < 0x1950 then Some(0x1946)
    else if 0x19D0 <= n < 0x19DA then Some(0x19D0)
    else if 0x1A80 <= n < 0x1A8A then Some(0x1A80)
    else if 0x1A90 <= n < 0x1A9A then Some(0x1A90)
    else if 0x1B50 <= n < 0x1B5A then Some(0x1B50)
    else if 0x1BB0 <= n < 0x1BBA then Some(0x1BB0)
    else if 0x1C40 <= n < 0x1C4A then Some(0x1C40)
    else if 0x1C50 <= n < 0x1C5A then Some(0x1C50)
    else if 0xA620 <= n < 0xA62A then Some(0xA620)
    else if 0xA8D0 <= n < 0xA8DA then Some(0xA8D0)
    else if 0xA900 <= n < 0xA90A then Some(0xA900)
    else if 0xA9D0 <= n < 0xA9DA then Some(0xA9D0)
    else if 0xA9F0 <= n < 0xA9FA then Some(0xA9F0)
    else if 0xAA50 <= n < 0xAA5A then Some(0xAA50)
    else if 0xABF0 <= n < 0xABFA then Some(0xABF0)
    else if 0xFF10 <= n < 0xFF1A then Some(0xFF10)
    else None
  }

  predicate IsDigit(c: char) {
    DigitZero(c).Some?
  }

  function DigitValue(c: char): (d: nat)
    requires IsDigit(c)
    ensures d < 10
  {
    (c as int) - DigitZero(c).value
  }

  /** The ASCII digits are digits with their usual values. */
  lemma AsciiDigit(c: char)
    ensures '0' <= c <= '9' ==> IsDigit(c) && DigitValue(c) == (c as int) - ('0' as int)
  {
  }

  /** FULLWIDTH DIGIT THREE is the digit 3. */
  lemma FullwidthThree()
    ensures IsDigit('\U{FF13}') && DigitValue('\U{FF13}') == 3
  {
  }

  predicate AllDigits(s: string) {
    forall i :: 0 <= i < |s| ==> IsDigit(s[i])
  }

  /** The value of a string of digits, most significant first. */
  function DecimalValue(ds: string): nat
    requires AllDigits(ds)
  {
    if ds == [] then 0 else 10 * DecimalValue(ds[..|ds| - 1]) + DigitValue(ds[|ds| - 1])
  }

  /** The integer `s` spells: an optional `-` or `+`, then at least one
      digit; `None` when `s` has another form. This is the reference
      meaning `ToIntOrNull` is proved against. */
  function Spelled(s: string): Option<int> {
    if |s| > 1 && (s[0] == '-' || s[0] == '+') && AllDigits(s[1..]) then
      Some(if s[0] == '-' then -(DecimalValue(s[1..]) as int) else DecimalValue(s[1..]))
    else if |s| > 0 && AllDigits(s) then Some(DecimalValue(s))
    else None
  }

  /** The digit loop of `toIntOrNull`: digits from `i` on, accumulated
      most significant first; a non-digit gives null, and so does a
      magnitude beyond `limit`, as soon as it is reached. */
  function Accumulate(s: string, i: nat, acc: nat, limit: nat): Option<nat>
    requires i <= |s|
    decreases |s| - i
  {
    if i == |s| then Some(acc)
    else if !IsDigit(s[i]) then None
    else
      var acc' := 10 * acc + DigitValue(s[i]);
      if acc' > limit then None else Accumulate(s, i + 1, acc', limit)
  }

  /** `String.toIntOrNull()`: empty input and a lone sign are null; a
      first character below `'0'` must be a sign; the magnitude may reach
      2^31 for a negative number and 2^31 - 1 otherwise. */
  function ToIntOrNull(s: string): (r: Option<Int>)
    ensures r.Some? <==> Spelled(s).Some? && -TWO_31 <= Spelled(s).value < TWO_31
    ensures r.Some? ==> r.value == Spelled(s).value
  {
    if |s| == 0 then None
    else if s[0] < '0' then
      if |s| == 1 then None
      else if s[0] == '-' then
        AccumulateFrom(s, 1, TWO_31);
        match Accumulate(s, 1, 0, TWO_31)
        case Some(m) => var neg: int := -(m as int); Some(neg)
        case None => None
      else if s[0] == '+' then
        AccumulateFrom(s, 1, INT_MAX);
        Accumulate(s, 1, 0, INT_MAX)
      else None
    else
      AccumulateFrom(s, 0, INT_MAX);
      Accumulate(s, 0, 0, INT_MAX)
  }

  /** The digit loop started at `start` yields the value of the rest of
      the string when that is all digits and within `limit`. */
  lemma AccumulateFrom(s: string, start: nat, limit: nat)
    requires start <= |s|
    ensures var r := Accumulate(s, start, 0, limit);
            r.Some? <==> AllDigits(s[start..]) && DecimalValue(s[start..]) <= limit
    ensures var r := Accumulate(s, start, 0, limit);
            r.Some? ==> AllDigits(s[start..]) && r.value == DecimalValue(s[start..])
  {
    assert s[start..start] == [];
    AccumulateLoop(s, start, start, 0, limit);
  }

  /** The loop invariant: after the digits `s[start..i]`, the accumulator
      holds their value. */
  lemma {:induction false} AccumulateLoop(s: string, start: nat, i: nat, acc: nat, limit: nat)
    requires start <= i <= |s|
    requires AllDigits(s[start..i]) && acc == DecimalValue(s[start..i]) && acc <= limit
    ensures var r := Accumulate(s, i, acc, limit);
            r.Some? <==> AllDigits(s[start..]) && DecimalValue(s[start..]) <= limit
    ensures var r := Accumulate(s, i, acc, limit);
            r.Some? ==> AllDigits(s[start..]) && r.value == DecimalValue(s[start..])
    decreases |s| - i
  {
    if i == |s| {
      assert s[start..i] == s[start..];
    } else if !IsDigit(s[i]) {
      assert s[start..][i - start] == s[i];
    } else {
      var acc' := 10 * acc + DigitValue(s[i]);
      DigitStep(s, start, i, acc);
      if acc' > limit {
        PastLimit(s, start, i + 1, limit);
      } else {
        AccumulateLoop(s, start, i + 1, acc', limit);
      }
    }
  }

  /** Once the digits up to `j` are worth more than `limit`, the whole
      rest of the string is not a digit string within `limit`. */
  lemma PastLimit(s: string, start: nat, j: nat, limit: nat)
    requires start <= j <= |s|
    requires AllDigits(s[start..j]) && DecimalValue(s[start..j]) > limit
    ensures !(AllDigits(s[start..]) && DecimalValue(s[start..]) <= limit)
  {
    if AllDigits(s[start..]) {
      DecimalPrefix(s[start..], j - start);
      assert s[start..][..j - start] == s[start..j];
    }
  }

  /** One more digit multiplies the value so far by ten and adds it. */
  lemma DigitStep(s: string, start: nat, i: nat, acc: nat)
    requires start <= i < |s| && IsDigit(s[i])
    requires AllDigits(s[start..i]) && acc == DecimalValue(s[start..i])
    ensures AllDigits(s[start..i + 1])
    ensures DecimalValue(s[start..i + 1]) == 10 * acc + DigitValue(s[i])
  {
    var p := s[start..i + 1];
    assert p[..|p| - 1] == s[start..i];
    assert AllDigits(p);
  }

  /** A prefix of a digit string is worth no more than the whole. */
  lemma {:induction false} DecimalPrefix(ds: string, k: nat)
    requires AllDigits(ds) && k <= |ds|
    ensures AllDigits(ds[..k]) && DecimalValue(ds[..k]) <= DecimalValue(ds)
    decreases |ds|
  {
    if k < |ds| {
      var init := ds[..|ds| - 1];
      assert init[..k] == ds[..k];
      DecimalPrefix(init, k);
    } else {
      assert ds[..k] == ds;
    }
  }

  /** Kotlin's `Int.toString()`: a `-` for negative numbers, then the
      digits of the magnitude without leading zeros. */
  function ShowInt(n: int): string {
    if n < 0 then "-" + ShowNat(-n) else ShowNat(n)
  }

  function ShowNat(n: nat): (ds: string)
    ensures |ds| > 0 && AllDigits(ds)
  {
    var d := ['0' + (n % 10) as char];
    if n < 10 then d else ShowNat(n / 10) + d
  }

  /** The digits `ShowNat` produces are worth the number. */
  lemma {:induction false} ShowNatValue(n: nat)
    ensures DecimalValue(ShowNat(n)) == n
  {
    var ds := ShowNat(n);
    AsciiDigit(ds[|ds| - 1]);
    if n >= 10 {
      ShowNatValue(n / 10);
      assert ds[..|ds| - 1] == ShowNat(n / 10);
    }
  }

  /** `toIntOrNull` reads back every Int that `toString` renders. */
  lemma ShowRoundTrip(n: Int)
    ensures ToIntOrNull(ShowInt(n)) == Some(n)
  {
    var m: nat := if n < 0 then -(n as int) else n as int;
    ShowNatValue(m);
    var s := ShowInt(n);
    if n < 0 {
      assert s[1..] == ShowNat(m);
    }
  }

  // ---------------------------------------------------------------------
  // The trailer rule
  // ---------------------------------------------------------------------

  /** The `grpc-status` header as a status: `fromCode` of its number, or
      `UNKNOWN`. */
  function StatusOf(h: Headers): Status {
    match Get(h, "grpc-status")
    case Some(v) =>
      (match ToIntOrNull(v)
       case Some(n) => FromCode(n)
       case None => UNKNOWN)
    case None => UNKNOWN
  }

  function ToGrpcTrailers(h: Headers): (t: GrpcTrailers)
    ensures t.message.Some? <==> "grpc-message" in h && |h["grpc-message"]| > 0
    ensures t.raw.Keys == h.Keys
    ensures forall n :: n in h && |h[n]| > 0 && (forall i :: 0 <= i < |h[n]| ==> Free(h[n][i], ','))
                        ==> SplitOn(t.raw[n], ',') == h[n]
  {
    forall n | n in h && |h[n]| > 0 && (forall i :: 0 <= i < |h[n]| ==> Free(h[n][i], ',')) {
      JoinSplit(h[n], ',');
    }
    GrpcTrailers(StatusOf(h), Get(h, "grpc-message"), map n | n in h :: Join(h[n], ','))
  }

  /** A server that sends a status as its code in decimal is understood:
      the trailers carry that status. */
  lemma StatusRoundTrip(h: Headers, s: Status)
    requires Get(h, "grpc-status") == Some(ShowInt(Code(s)))
    ensures ToGrpcTrailers(h).status == s
  {
    ShowRoundTrip(Code(s));
    FromCodeRoundTrip(s);
  }

  /** Any decimal digit counts: `grpc-status: ３` (fullwidth) is code 3. */
  lemma FullwidthStatus(h: Headers)
    requires Get(h, "grpc-status") == Some(['\U{FF13}'])
    ensures ToGrpcTrailers(h).status == FromCode(3)
  {
    FullwidthThree();
  }

  /** A missing `grpc-status`, one that is not a decimal Int, or one
      whose number no status carries, gives `UNKNOWN`; a decimal Int gives
      `fromCode` of it. */
  lemma StatusRule(h: Headers)
    ensures Get(h, "grpc-status").None? ==> ToGrpcTrailers(h).status == UNKNOWN
    ensures Get(h, "grpc-status").Some? && ToIntOrNull(Get(h, "grpc-status").value).None?
            ==> ToGrpcTrailers(h).status == UNKNOWN
    ensures Get(h, "grpc-status").Some? && Spelled(Get(h, "grpc-status").value).Some?
            && -TWO_31 <= Spelled(Get(h, "grpc-status").value).value < TWO_31
            ==> ToGrpcTrailers(h).status == FromCode(Spelled(Get(h, "grpc-status").value).value)
    ensures Get(h, "grpc-status").Some? && Spelled(Get(h, "grpc-status").value).Some?
            && !Known(Spelled(Get(h, "grpc-status").value).value)
            ==> ToGrpcTrailers(h).status == UNKNOWN
  {
    match Get(h, "grpc-status")
    case Some(v) =>
      match ToIntOrNull(v) {
        case Some(n) => FromCodeUnknown(n);
        case None =>
      }
    case None =>
  }
}
