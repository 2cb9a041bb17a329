/**
 * The session identifier SyncService derives from the wall clock:
 * `$"Sync_Session_{DateTime.Now:yyyy-MM-dd_HH-mm-ss}"`. The clock reading is an input.
 */
module SessionIds {
  import opened Text

  /** A local-time reading at second precision, as `DateTime` holds it. */
  datatype Timestamp = Timestamp(year: int, month: int, day: int, hour: int, minute: int, second: int) {
    predicate Valid() {
      1 <= year <= 9999 && 1 <= month <= 12 && 1 <= day <= 31 &&
      0 <= hour < 24 && 0 <= minute < 60 && 0 <= second < 60
    }
  }

  const Prefix := "Sync_Session_"

  function Pow10(w: nat): nat {
    if w == 0 then 1 else 10 * Pow10(w - 1)
  }

  /** `n` written with exactly `w` decimal digits, zero-padded ("yyyy", "MM", ...). */
  function Pad(n: nat, w: nat): (r: string)
    ensures |r| == w
    ensures forall i :: 0 <= i < w ==> '0' <= r[i] <= '9'
  {
    if w == 0 then "" else Pad(n / 10, w - 1) + [('0' as int + n % 10) as char]
  }

  lemma {:induction false} PadRoundTrip(n: nat, w: nat)
    requires n < Pow10(w)
    ensures DigitsValue(Pad(n, w)) == n
  {
    if w > 0 {
      var r := Pad(n, w);
      assert r[..|r| - 1] == Pad(n / 10, w - 1);
      PadRoundTrip(n / 10, w - 1);
    }
  }

  /** The id of the session started at `t`. */
  function SessionId(t: Timestamp): (id: string)
    requires t.Valid()
    ensures |id| == 32 && id[..|Prefix|] == Prefix
    ensures '/' !in id && '\\' !in id
  {
    Prefix + Pad(t.year, 4) + "-" + Pad(t.month, 2) + "-" + Pad(t.day, 2) + "_" +
    Pad(t.hour, 2) + "-" + Pad(t.minute, 2) + "-" + Pad(t.second, 2)
  }

  /** Where each field sits in an id: 32 characters, year at 13..17, month at 18..20, and so on. */
  lemma SessionIdLayout(t: Timestamp)
    requires t.Valid()
    ensures |SessionId(t)| == 32
    ensures SessionId(t)[..13] == Prefix
    ensures SessionId(t)[13..17] == Pad(t.year, 4)
    ensures SessionId(t)[18..20] == Pad(t.month, 2)
    ensures SessionId(t)[21..23] == Pad(t.day, 2)
    ensures SessionId(t)[24..26] == Pad(t.hour, 2)
    ensures SessionId(t)[27..29] == Pad(t.minute, 2)
    ensures SessionId(t)[30..] == Pad(t.second, 2)
  {
    var y, mo, d, h, mi, s := Pad(t.year, 4), Pad(t.month, 2), Pad(t.day, 2), Pad(t.hour, 2), Pad(t.minute, 2), Pad(t.second, 2);
    var id := SessionId(t);
    assert id == Prefix + y + "-" + mo + "-" + d + "_" + h + "-" + mi + "-" + s;
    assert id[..13] == Prefix;
    assert id[13..17] == y;
    assert id[18..20] == mo;
    assert id[21..23] == d;
    assert id[24..26] == h;
    assert id[27..29] == mi;
    assert id[30..] == s;
  }

  /** Readings that differ in any field, even by one second, give different ids. */
  lemma SessionIdInjective(t1: Timestamp, t2: Timestamp)
    requires t1.Valid() && t2.Valid()
    ensures SessionId(t1) == SessionId(t2) <==> t1 == t2
  {
    if SessionId(t1) == SessionId(t2) {
      SessionIdLayout(t1);
      SessionIdLayout(t2);
      assert Pow10(2) == 100 && Pow10(4) == 10000;
      PadRoundTrip(t1.year, 4); PadRoundTrip(t2.year, 4);
      PadRoundTrip(t1.month, 2); PadRoundTrip(t2.month, 2);
      PadRoundTrip(t1.day, 2); PadRoundTrip(t2.day, 2);
      PadRoundTrip(t1.hour, 2); PadRoundTrip(t2.hour, 2);
      PadRoundTrip(t1.minute, 2); PadRoundTrip(t2.minute, 2);
      PadRoundTrip(t1.second, 2); PadRoundTrip(t2.second, 2);
    }
  }
}
