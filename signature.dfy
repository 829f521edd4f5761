/**
  Signature checks on directory requests.  A namespace's policy pins an algorithm and
  a public key; a request is accepted when the policy is unmanaged, or when it names
  the pinned key, carries a timestamp strictly inside a 24-hour window around the
  verification time, and the cryptographic check accepts its signature over a
  canonical message that depends on the operation.

  Time is a count of nanoseconds since the Unix epoch, and `now` is a parameter.  The
  cryptographic check is an uninterpreted, total predicate supplied by the caller.
 */
module Signature {
  import opened Wrappers
  import opened Formatting

  /** Go's `int64`, the width of request timestamps and limits. */
  type Int64 = x: int | -0x8000_0000_0000_0000 <= x < 0x8000_0000_0000_0000

  const Second: int := 1_000_000_000
  const Hour: int := 3600 * Second
  /** Half-width of the acceptance window around the verification time. */
  const Delta: int := 24 * Hour
  /** A List request signs its timestamp truncated to milliseconds. */
  const NanosPerMilli: int := 1_000_000

  /**
    The access policy that the policy registry resolves for a namespace.  Prefix,
    algorithm and key are empty when no configured entry matches.
   */
  datatype Policy = Policy(
    prefix: string,
    algorithm: string,
    publicKey: string,
    confidential: bool,
    readOnly: bool)
  {
    /** No signature is ever required under an unmanaged policy. */
    predicate Unmanaged()
    {
      |prefix| == 0 || |algorithm| == 0 || |publicKey| == 0
    }
  }

  /** The arguments handed to the cryptographic check. */
  datatype CryptoQuery = CryptoQuery(
    info: Policy,
    publicKey: string,
    message: string,
    algorithm: string,
    signature: string)

  datatype AuthError = KeyMismatch | TimestampOutOfRange | BadSignature

  datatype Verdict = Accepted | Rejected(reason: AuthError)

  /** Strictly after `start` and strictly before `end`: both ends are excluded. */
  predicate TimeInRange(start: int, end: int, check: int): (b: bool)
    ensures b ==> end - start >= 2
    ensures check <= start || end <= check ==> !b
    ensures start < check && check < end ==> b
  {
    start < check < end
  }

  /** The acceptance window: strictly within `Delta` of `now`, either side. */
  predicate InWindow(timestamp: int, now: int): (b: bool)
    ensures b <==> -Delta < timestamp - now < Delta
  {
    TimeInRange(now - Delta, now + Delta, timestamp)
  }

  /**
    The decision procedure shared by both request kinds, steps in fixed order:
    unmanaged policy, pinned key, time window, cryptographic check.
   */
  function Verify(
    info: Policy, publicKey: string, algorithm: string, signature: string,
    timestamp: int, now: int, message: string, crypto: CryptoQuery -> bool): (v: Verdict)
    ensures info.Unmanaged() ==> v == Accepted
    ensures !info.Unmanaged() && publicKey != info.publicKey ==> v == Rejected(KeyMismatch)
    ensures v == Rejected(TimestampOutOfRange) <==>
      !info.Unmanaged() && publicKey == info.publicKey && !(now - Delta < timestamp < now + Delta)
    ensures v == Rejected(BadSignature) <==>
      !info.Unmanaged() && publicKey == info.publicKey && now - Delta < timestamp < now + Delta
      && !crypto(CryptoQuery(info, publicKey, message, algorithm, signature))
    ensures v == Accepted <==>
      info.Unmanaged() ||
      (publicKey == info.publicKey && now - Delta < timestamp < now + Delta
       && crypto(CryptoQuery(info, publicKey, message, algorithm, signature)))
  {
    if info.Unmanaged() then Accepted
    else if publicKey != info.publicKey then Rejected(KeyMismatch)
    else if !InWindow(timestamp, now) then Rejected(TimestampOutOfRange)
    else if crypto(CryptoQuery(info, publicKey, message, algorithm, signature)) then Accepted
    else Rejected(BadSignature)
  }

  /** A `Directory.List` request. */
  datatype DirectoryEntries = DirectoryEntries(
    name: string,
    limit: Int64,
    publicKey: string,
    algorithm: string,
    signature: string,
    timestamp: Int64)
  {
    /**
      The signed text: the name, a dot, the timestamp in whole milliseconds (truncated).
      After the name and its dot comes a dot-free numeral in Go's printed form that
      reads back as that millisecond.
     */
    function Message(): (m: string)
      ensures |m| > |name| + 1 && m[..|name|] == name && m[|name|] == '.'
      ensures '.' !in m[|name| + 1..] && CanonicalNumeral(m[|name| + 1..])
      ensures ParseInt(m[|name| + 1..]) == Some(TruncDiv(timestamp, NanosPerMilli))
    {
      var x := IntToString(TruncDiv(timestamp, NanosPerMilli));
      DropPrefix(name, x);
      ParseIntToString(TruncDiv(timestamp, NanosPerMilli));
      name + "." + x
    }

    function VerifySignature(info: Policy, now: int, crypto: CryptoQuery -> bool): (v: Verdict)
      ensures info.Unmanaged() ==> v == Accepted
      ensures v == Accepted && !info.Unmanaged() ==>
        publicKey == info.publicKey && now - Delta < timestamp < now + Delta
        && crypto(CryptoQuery(info, publicKey,
                              name + "." + IntToString(TruncDiv(timestamp, NanosPerMilli)),
                              algorithm, signature))
      ensures !info.Unmanaged() && publicKey == info.publicKey && now - Delta < timestamp < now + Delta ==>
        (v == Accepted <==> crypto(CryptoQuery(info, publicKey, Message(), algorithm, signature)))
    {
      Verify(info, publicKey, algorithm, signature, timestamp, now, Message(), crypto)
    }
  }

  /** A `Directory.Add` or `Directory.Remove` request, also the payload of a replication event. */
  datatype DirectoryEntry = DirectoryEntry(
    name: string,
    entry: string,
    mode: string,
    publicKey: string,
    algorithm: string,
    signature: string,
    timestamp: Int64)
  {
    /**
      The signed text: the name, the timestamp in nanoseconds and the entry, joined by
      dots.  After the name and its dot, the text up to the next dot is a numeral in Go's
      printed form that reads back as the timestamp, and the text after it is the entry.
     */
    function Message(): (m: string)
      ensures |m| > |name| + 1 && m[..|name|] == name && m[|name|] == '.'
      ensures var rest := m[|name| + 1..];
        FirstDot(rest) < |rest| && CanonicalNumeral(rest[..FirstDot(rest)])
        && ParseInt(rest[..FirstDot(rest)]) == Some(timestamp)
        && rest[FirstDot(rest) + 1..] == entry
    {
      var x := IntToString(timestamp);
      var rest := x + "." + entry;
      assert name + "." + x + "." + entry == name + "." + rest;
      DropPrefix(name, rest);
      FirstDotAfter(x, entry);
      assert rest[..|x|] == x && rest[|x| + 1..] == entry;
      ParseIntToString(timestamp);
      name + "." + x + "." + entry
    }

    function VerifySignature(info: Policy, now: int, crypto: CryptoQuery -> bool): (v: Verdict)
      ensures info.Unmanaged() ==> v == Accepted
      ensures v == Accepted && !info.Unmanaged() ==>
        publicKey == info.publicKey && now - Delta < timestamp < now + Delta
        && crypto(CryptoQuery(info, publicKey, name + "." + IntToString(timestamp) + "." + entry,
                              algorithm, signature))
      ensures !info.Unmanaged() && publicKey == info.publicKey && now - Delta < timestamp < now + Delta ==>
        (v == Accepted <==> crypto(CryptoQuery(info, publicKey, Message(), algorithm, signature)))
    {
      Verify(info, publicKey, algorithm, signature, timestamp, now, Message(), crypto)
    }
  }

  /**
    A policy is unmanaged exactly when it accepts requests whose signature nothing
    verifies: an unmanaged policy needs no signature, a managed one always needs one.
   */
  lemma UnmanagedNeedsNoSignature(info: Policy, l: DirectoryEntries, p: DirectoryEntry, now: int)
    ensures info.Unmanaged() <==> l.VerifySignature(info, now, q => false) == Accepted
    ensures info.Unmanaged() <==> p.VerifySignature(info, now, q => false) == Accepted
  {
  }

  /** A timestamp exactly on either edge of the window is refused under a managed policy. */
  lemma WindowEdgesRejected(p: DirectoryEntry, info: Policy, now: int, crypto: CryptoQuery -> bool)
    requires !info.Unmanaged()
    requires p.timestamp == now - Delta || p.timestamp == now + Delta
    ensures p.VerifySignature(info, now, crypto).Rejected?
    ensures p.publicKey == info.publicKey ==>
      p.VerifySignature(info, now, crypto) == Rejected(TimestampOutOfRange)
  {
  }

  /** Removing the name and its dot from a message leaves the rest. */
  lemma DropPrefix(name: string, rest: string)
    ensures (name + "." + rest)[|name| + 1..] == rest
  {
    assert name + "." + rest == name + ("." + rest);
  }

  /**
    For a fixed name, a List message determines the millisecond it was signed in: the
    signature of one millisecond does not verify for another.
   */
  lemma ListMessageBindsMillisecond(a: DirectoryEntries, b: DirectoryEntries)
    requires a.name == b.name
    requires a.Message() == b.Message()
    ensures TruncDiv(a.timestamp, NanosPerMilli) == TruncDiv(b.timestamp, NanosPerMilli)
  {
    var x := IntToString(TruncDiv(a.timestamp, NanosPerMilli));
    var y := IntToString(TruncDiv(b.timestamp, NanosPerMilli));
    DropPrefix(a.name, x);
    DropPrefix(a.name, y);
    IntToStringInjective(TruncDiv(a.timestamp, NanosPerMilli), TruncDiv(b.timestamp, NanosPerMilli));
  }

  /**
    Within one millisecond the List message does not change, so two List requests that
    differ only in sub-millisecond digits of an in-window timestamp get the same verdict.
   */
  lemma ListVerdictIgnoresSubMillisecond(
    a: DirectoryEntries, b: DirectoryEntries, info: Policy, now: int, crypto: CryptoQuery -> bool)
    requires a == b.(timestamp := a.timestamp)
    requires TruncDiv(a.timestamp, NanosPerMilli) == TruncDiv(b.timestamp, NanosPerMilli)
    requires InWindow(a.timestamp, now) && InWindow(b.timestamp, now)
    ensures a.VerifySignature(info, now, crypto) == b.VerifySignature(info, now, crypto)
  {
    assert a.Message() == b.Message();
  }

  /** The index of the first dot in `w`, or `|w|` when there is none. */
  function FirstDot(w: string): (i: nat)
    ensures i <= |w|
  {
    if |w| == 0 then 0 else if w[0] == '.' then 0 else 1 + FirstDot(w[1..])
  }

  lemma {:induction false} FirstDotAfter(x: string, u: string)
    requires '.' !in x
    ensures FirstDot(x + "." + u) == |x|
  {
    if |x| > 0 {
      assert (x + "." + u)[1..] == x[1..] + "." + u;
      FirstDotAfter(x[1..], u);
    }
  }

  /**
    For a fixed name, an Add/Remove message determines both the exact nanosecond
    timestamp and the entry: a signature for one write does not verify for another.
   */
  lemma EntryMessageBindsTimestampAndEntry(a: DirectoryEntry, b: DirectoryEntry)
    requires a.name == b.name
    requires a.Message() == b.Message()
    ensures a.timestamp == b.timestamp && a.entry == b.entry
  {
    var m := a.Message();
    assert m[|a.name| + 1..] == b.Message()[|b.name| + 1..];
  }

  /**
    The Add/Remove message covers neither the operation nor the mode: the signature of
    an Add verifies for the Remove of the same fields and for the same Add in any mode.
   */
  lemma EntryVerdictIgnoresMode(p: DirectoryEntry, mode: string, info: Policy, now: int, crypto: CryptoQuery -> bool)
    ensures p.(mode := mode).Message() == p.Message()
    ensures p.(mode := mode).VerifySignature(info, now, crypto) == p.VerifySignature(info, now, crypto)
  {
  }

  /**
    Under one name, a List message is never an Add/Remove message: after the name and
    its dot, a List message holds a numeral alone, an Add/Remove message a numeral and
    another dot.
   */
  lemma ListAndEntryMessagesDiffer(l: DirectoryEntries, e: DirectoryEntry)
    requires l.name == e.name
    ensures l.Message() != e.Message()
  {
    var x := IntToString(TruncDiv(l.timestamp, NanosPerMilli));
    var y := IntToString(e.timestamp) + "." + e.entry;
    assert e.Message() == e.name + "." + y;
    DropPrefix(l.name, x);
    DropPrefix(l.name, y);
    assert y[|IntToString(e.timestamp)|] == '.';
    assert '.' !in x;
  }

  /**
    Across different names the two formats can coincide: the List message of namespace
    "a.5.x" at millisecond 7 is the Add/Remove message of namespace "a", timestamp 5ns,
    entry "x.7".
   */
  lemma ListAndEntryMessagesCollideAcrossNames()
    ensures DirectoryEntries("a.5.x", 0, "", "", "", 7 * NanosPerMilli).Message()
         == DirectoryEntry("a", "x.7", "", "", "", "", 5).Message()
  {
    assert IntToString(TruncDiv(7 * NanosPerMilli, NanosPerMilli)) == "7";
    assert IntToString(5) == "5";
  }
}
