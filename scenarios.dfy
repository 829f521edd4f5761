/**
  Clients of the directory that show, from the handlers' contracts alone, three
  end-to-end behaviours: an unmanaged namespace read back after a write, a wrong key
  refused on a read-only namespace, and a peer's write applied without any signature.
 */
module Scenarios {
  import opened Wrappers
  import opened Signature
  import opened Replication
  import opened DirectoryService

  /** The policy the registry gives a namespace that no configured prefix matches. */
  const NoPolicy: Policy := Policy("", "", "", false, false)

  /** Writing "abc123" to the unmanaged "pairing" namespace, unsigned, then listing it. */
  method PairingWriteThenList(crypto: CryptoQuery -> bool, rng: nat -> nat)
    returns (added: Option<Response>, addOk: bool, listed: Option<DirectoryEntriesResponse>, listOk: bool)
    ensures added.Some?
    ensures added == Some(Response(Success)) <==> addOk
    ensures listed.Some? <==> listOk
    ensures addOk && listOk ==> listed.value == DirectoryEntriesResponse("pairing", ["abc123"])
    ensures !addOk && listOk ==> listed.value == DirectoryEntriesResponse("pairing", [])
  {
    var d := new Directory(true, true, Second, 60 * Second);
    added, addOk := d.Add(DirectoryEntry("pairing", "abc123", "short", "", "", "", 0), NoPolicy, 0, crypto);
    listed, listOk := d.List(DirectoryEntries("pairing", 0, "", "", "", 0), NoPolicy, 0, crypto, rng);
  }

  /** An Add to a read-only namespace pinned to "PK1", signed with "PK2", is refused. */
  method WrongKeyRefused(crypto: CryptoQuery -> bool, now: Int64)
    returns (added: Option<Response>, stored: seq<string>, published: seq<Event>)
    ensures added == Some(Response(Error))
    ensures stored == [] && published == []
  {
    var secure := Policy("secure", "ed25519", "PK1", false, true);
    var d := new Directory(true, true, Second, 60 * Second);
    var storeOk;
    added, storeOk := d.Add(DirectoryEntry("secure", "v1", "default", "PK2", "ed25519", "sig", now), secure, now, crypto);
    stored, published := d.Stored("secure"), d.published;
  }

  /**
    A gossip Add for a read-only namespace carries no signature, yet it is applied: once
    the store write succeeds, a List of the namespace returns the peer's value.
   */
  method PeerWriteBypassesPolicy(crypto: CryptoQuery -> bool, rng: nat -> nat, now: int)
    returns (storeOk: bool, listed: Option<DirectoryEntriesResponse>, listOk: bool)
    ensures listed.Some? <==> listOk
    ensures storeOk && listOk ==> listed.value == DirectoryEntriesResponse("secure", ["xyz"])
  {
    var d := new Directory(true, true, Second, 60 * Second);
    var readOnly := Policy("secure", "ed25519", "PK1", false, true);
    var s := LoopState(StartupTimeout, now);
    var input := Message(AddContext, Some(DirectoryEntry("secure", "xyz", "short", "", "", "", 0)), now);
    var next, stop;
    next, stop, storeOk := d.HandleInput(s, input);
    listed, listOk := d.List(DirectoryEntries("secure", 0, "", "", "", 0), readOnly, now, crypto, rng);
  }
}
