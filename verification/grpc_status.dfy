/** The gRPC status codes the library knows (`GrpcStatus`), and
    `fromCode`: the first constant, in declaration order, whose code is the
    given one, or `UNKNOWN` when there is none. */
module GrpcStatus {
  import opened KotlinInt
  import opened Wrappers

  datatype Status =
    | OK
    | CANCELLED
    | UNKNOWN
    | INVALID_ARGUMENT
    | DEADLINE_EXCEEDED
    | NOT_FOUND
    | ALREADY_EXISTS
    | PERMISSION_DENIED
    | UNAUTHENTICATED
    | INTERNAL
    | UNAVAILABLE

  /** The `code` of each constant. */
  function Code(s: Status): Int {
    match s
    case OK => 0
    case CANCELLED => 1
    case UNKNOWN => 2
    case INVALID_ARGUMENT => 3
    case DEADLINE_EXCEEDED => 4
    case NOT_FOUND => 5
    case ALREADY_EXISTS => 6
    case PERMISSION_DENIED => 7
    case UNAUTHENTICATED => 16
    case INTERNAL => 13
    case UNAVAILABLE => 14
  }

  /** `entries`: the constants in declaration order. */
  const Entries: seq<Status> :=
    [OK, CANCELLED, UNKNOWN, INVALID_ARGUMENT, DEADLINE_EXCEEDED, NOT_FOUND,
     ALREADY_EXISTS, PERMISSION_DENIED, UNAUTHENTICATED, INTERNAL, UNAVAILABLE]

  /** The codes some constant carries. */
  predicate Known(code: int) {
    0 <= code <= 7 || code == 13 || code == 14 || code == 16
  }

  /** `firstOrNull { it.code == code }`: the first entry with the code,
      and every entry before it has another code. */
  function FirstWithCode(entries: seq<Status>, code: Int): (r: Option<Status>)
    ensures r.None? <==> forall i :: 0 <= i < |entries| ==> Code(entries[i]) != code
    ensures r.Some? ==> exists i :: 0 <= i < |entries| && entries[i] == r.value
                                    && Code(r.value) == code
  {
    if entries == [] then None
    else if Code(entries[0]) == code then Some(entries[0])
    else
      var r := FirstWithCode(entries[1..], code);
      assert forall i :: 1 <= i < |entries| ==> entries[i] == entries[1..][i - 1];
      r
  }

  /** `fromCode(code)`: total — every Int gives a constant. The constant
      carries the code, unless the code is unknown and it is `UNKNOWN`. */
  function FromCode(code: Int): (s: Status)
    ensures Code(s) == code || (s == UNKNOWN && !Known(code))
  {
    var r := FirstWithCode(Entries, code);
    if r.None? then
      KnownEntry(code);
      UNKNOWN
    else r.value
  }

  /** Where in `Entries` a known code sits. */
  function EntryIndex(code: int): (i: nat)
    requires Known(code)
    ensures i < |Entries| && Code(Entries[i]) == code
  {
    if code <= 7 then code else if code == 13 then 9 else if code == 14 then 10 else 8
  }

  /** A known code is carried by some entry. */
  lemma KnownEntry(code: int)
    ensures Known(code) ==> exists i :: 0 <= i < |Entries| && Code(Entries[i]) == code
  {
    if Known(code) {
      var i := EntryIndex(code);
    }
  }

  /** Every constant is an entry, and no two constants share a code. */
  lemma CodesDistinct(a: Status, b: Status)
    ensures a in Entries
    ensures Code(a) == Code(b) ==> a == b
  {
  }

  /** `fromCode` inverts `code`. */
  lemma FromCodeRoundTrip(s: Status)
    ensures FromCode(Code(s)) == s
  {
    CodesDistinct(s, FromCode(Code(s)));
  }

  /** A code falls back to `UNKNOWN` exactly when no constant carries it
      (or it is `UNKNOWN`'s own code, 2). */
  lemma FromCodeUnknown(code: Int)
    ensures FromCode(code) == UNKNOWN <==> !Known(code) || code == 2
    ensures Known(code) ==> Code(FromCode(code)) == code
  {
  }
}
