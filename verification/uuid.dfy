/** The two operations of `github.com/google/uuid` the session tokens use:
    `UUID.String` (canonical text) and `uuid.Parse` (its inverse). */
module Uuid {
  import opened Wrappers
  import opened Hex

  /** A UUID is 16 bytes. */
  type Uuid = b: seq<byte> | |b| == 16 witness [0, 0, 0, 0, 0, 0, 0, 0, 0, 0, 0, 0, 0, 0, 0, 0]

  /** `uuid.Nil`, the all-zero UUID every failing validation returns. */
  const Nil: Uuid := [0, 0, 0, 0, 0, 0, 0, 0, 0, 0, 0, 0, 0, 0, 0, 0]

  /** `UUID.String`: `xxxxxxxx-xxxx-xxxx-xxxx-xxxxxxxxxxxx` in lower-case hex. */
  function ToString(u: Uuid): (s: string)
    ensures |s| == 36
    ensures s[8] == '-' && s[13] == '-' && s[18] == '-' && s[23] == '-'
  {
    Encode(u[..4]) + "-" + Encode(u[4..6]) + "-" + Encode(u[6..8]) + "-"
      + Encode(u[8..10]) + "-" + Encode(u[10..])
  }

  /** The 32 hexadecimal digits of a 36-character UUID text, dashes removed. */
  function Digits(s: string): string
    requires |s| == 36
  {
    s[..8] + s[9..13] + s[14..18] + s[19..23] + s[24..]
  }

  /** `uuid.Parse` on the standard 36-character form: dashes at positions
      8, 13, 18 and 23, and hex digits of either case everywhere else. */
  function Parse(s: string): Option<Uuid>
  {
    if |s| != 36 then None
    else if s[8] != '-' || s[13] != '-' || s[18] != '-' || s[23] != '-' then None
    else
      match Decode(Digits(s))
      case None => None
      case Some(b) => Some(b)
  }

  /** Parsing the canonical text of a UUID gives the UUID back. */
  lemma ParseToString(u: Uuid)
    ensures Parse(ToString(u)) == Some(u)
  {
    var s := ToString(u);
    var p0, p1, p2, p3, p4 := Encode(u[..4]), Encode(u[4..6]), Encode(u[6..8]), Encode(u[8..10]), Encode(u[10..]);
    assert s == p0 + "-" + p1 + "-" + p2 + "-" + p3 + "-" + p4;
    assert s[..8] == p0;
    assert s[9..13] == p1;
    assert s[14..18] == p2;
    assert s[19..23] == p3;
    assert s[24..] == p4;
    assert Digits(s) == Encode(u) by {
      EncodeConcat(u[..4], u[4..6]);
      EncodeConcat(u[..4] + u[4..6], u[6..8]);
      EncodeConcat(u[..4] + u[4..6] + u[6..8], u[8..10]);
      EncodeConcat(u[..4] + u[4..6] + u[6..8] + u[8..10], u[10..]);
      assert u == u[..4] + u[4..6] + u[6..8] + u[8..10] + u[10..];
    }
    DecodeEncode(u);
  }

  /** Distinct UUIDs have distinct canonical texts. */
  lemma ToStringInjective(u: Uuid, v: Uuid)
    requires ToString(u) == ToString(v)
    ensures u == v
  {
    ParseToString(u);
    ParseToString(v);
  }
}
