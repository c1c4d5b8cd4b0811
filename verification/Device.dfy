/** The hardware module as its callers see it: a key repository behind calls that may fail. */
module Device {
  import opened Base
  import opened Tlv
  import opened Kid
  import opened Repository

  /** One search result. The device may drop trailing zeros of the descr it returns. */
  datatype KeyEntry = KeyEntry(kid: string, title: string, descr: bytes)

  predicate TrimOf(t: bytes, stored: bytes) {
    t <= stored && AllZero(stored[|t|..])
  }

  predicate Presents(repo: Repo, magic: bytes, e: KeyEntry) {
    && e.kid in repo && magic <= repo[e.kid].descr
    && e.title == repo[e.kid].title && TrimOf(e.descr, repo[e.kid].descr)
  }

  /** Every matching entry, once, in an order of the device's choosing. */
  ghost predicate IsListing(repo: Repo, magic: bytes, listing: seq<KeyEntry>) {
    && (forall i :: 0 <= i < |listing| ==> Presents(repo, magic, listing[i]))
    && (forall i, j :: 0 <= i < j < |listing| ==> listing[i].kid != listing[j].kid)
    && (forall k :: k in repo && magic <= repo[k].descr ==> exists i :: 0 <= i < |listing| && listing[i].kid == k)
  }

  datatype Lookup = Found(pub: bytes) | Missing | Unavailable

  datatype Page = Entries(total: nat, page: seq<KeyEntry>) | AuthRequired | SearchFailed

  datatype Check = Accepted | Refused | NoAnswer

  /** Done, refused for what the repository holds, or stopped by a call that failed. */
  datatype Outcome<+T> = Done(value: T) | Rejected | Fault

  class Hem {
    const c: Crypto
    const size: RecordSize
    const steady: bool  // no call fails for reasons of its own
    var repo: Repo
    ghost var log: set<SignCall>  // the Sign calls this device has answered

    ghost predicate Valid()
      reads this
    {
      WithinCapacity(repo, size) && forall s :: s in log ==> Signed(c, size, s)
    }

    constructor (c: Crypto, size: RecordSize, steady: bool)
      ensures Valid() && repo == map[] && log == {} && this.c == c && this.size == size && this.steady == steady
    {
      this.c, this.size, this.steady := c, size, steady;
      repo, log := map[], {};
    }

    method GetPubKey(kid: string) returns (r: Lookup)
      ensures r.Found? ==> kid in repo && r.pub == repo[kid].pub
      ensures r.Missing? ==> kid !in repo
      ensures steady ==> !r.Unavailable?
    {
      var up: bool := *;
      if !up && !steady {
        return Unavailable;
      }
      return if kid in repo then Found(repo[kid].pub) else Missing;
    }

    /** A fresh Curve25519 key. It carries no record yet. */
    method CreateKey(title: string) returns (r: Option<string>)
      requires Valid()
      modifies this`repo
      ensures Valid()
      ensures r.None? ==> repo == old(repo)
      ensures r.Some? ==>
        && r.value !in old(repo) && r.value in repo
        && repo == old(repo)[r.value := Entry(repo[r.value].pub, true, title, [])]
        && |repo[r.value].pub| == 32 && KeyId(c, repo[r.value].pub) == r.value
    {
      var up: bool := *;
      assert |Zeros(32)| == 32;
      var pub: bytes :| |pub| == 32;
      var kid := KeyId(c, pub);
      if !up || kid in repo {
        return None;
      }
      repo := repo[kid := Entry(pub, true, title, [])];
      return Some(kid);
    }

    /** One public key has one entry: a second import of it is refused. */
    method ImportKey(title: string, pub: bytes, descr: bytes) returns (ok: bool)
      requires Valid() && |descr| <= size
      modifies this`repo
      ensures Valid()
      ensures ok ==> KeyId(c, pub) !in old(repo) && repo == old(repo)[KeyId(c, pub) := Entry(pub, false, title, descr)]
      ensures !ok ==> repo == old(repo)
      ensures steady ==> (ok <==> KeyId(c, pub) !in old(repo))
    {
      var up: bool := *;
      if (!up && !steady) || KeyId(c, pub) in repo {
        return false;
      }
      repo := repo[KeyId(c, pub) := Entry(pub, false, title, descr)];
      return true;
    }

    method UpdateKey(kid: string, title: string, descr: bytes) returns (ok: bool)
      requires Valid() && |descr| <= size
      modifies this`repo
      ensures Valid()
      ensures ok ==> kid in old(repo) && repo == old(repo)[kid := old(repo)[kid].(title := title, descr := descr)]
      ensures !ok ==> repo == old(repo)
      ensures steady ==> (ok <==> kid in old(repo))
    {
      var up: bool := *;
      if (!up && !steady) || kid !in repo {
        return false;
      }
      repo := repo[kid := repo[kid].(title := title, descr := descr)];
      return true;
    }

    method DeleteKey(kid: string) returns (ok: bool)
      requires Valid()
      modifies this`repo
      ensures Valid()
      ensures repo == if ok then old(repo) - {kid} else old(repo)
      ensures steady ==> ok
    {
      ok := *;
      ok := ok || steady;
      if ok {
        repo := repo - {kid};
      }
    }

    /** Fails on an imported public key: there is nothing to compute a self-ECDH with. */
    method HmacHash(kid: string, msg: bytes) returns (r: Option<Bytes32>)
      ensures r.Some? ==> kid in repo && repo[kid].hasPrivate && r.value == c.hmac(repo[kid].pub, msg)
      ensures steady ==> (r.Some? <==> kid in repo && repo[kid].hasPrivate)
    {
      var up: bool := *;
      if (!up && !steady) || kid !in repo || !repo[kid].hasPrivate {
        return None;
      }
      return Some(c.hmac(repo[kid].pub, msg));
    }

    method HmacVerify(kid: string, msg: bytes, sum: Bytes32) returns (r: Check)
      ensures r.Accepted? ==> kid in repo && repo[kid].hasPrivate && c.hmac(repo[kid].pub, msg) == sum
      ensures r.Refused? ==> kid !in repo || !repo[kid].hasPrivate || c.hmac(repo[kid].pub, msg) != sum
      ensures steady ==> !r.NoAnswer?
    {
      var up: bool := *;
      if !up && !steady {
        return NoAnswer;
      }
      return if kid in repo && repo[kid].hasPrivate && c.hmac(repo[kid].pub, msg) == sum then Accepted else Refused;
    }

    method CipherWrap(kid: string, context: string, psk: bytes) returns (r: Option<bytes>)
      ensures r.Some? ==> kid in repo && r.value == c.wrap(repo[kid].pub, context, psk)
      ensures steady ==> (r.Some? <==> kid in repo)
    {
      var up: bool := *;
      if (!up && !steady) || kid !in repo {
        return None;
      }
      return Some(c.wrap(repo[kid].pub, context, psk));
    }

    /** The enumeration a prefix search works through, fixed while the repository is. */
    method Enumerate(magic: bytes) returns (listing: seq<KeyEntry>)
      ensures IsListing(repo, magic, listing)
    {
      var todo := set k | k in repo && magic <= repo[k].descr;
      listing := [];
      while todo != {}
        invariant forall i :: 0 <= i < |listing| ==> Presents(repo, magic, listing[i]) && listing[i].kid !in todo
        invariant forall i, j :: 0 <= i < j < |listing| ==> listing[i].kid != listing[j].kid
        invariant forall k :: k in todo ==> k in repo && magic <= repo[k].descr
        invariant forall k :: k in repo && magic <= repo[k].descr ==>
                    k in todo || exists i :: 0 <= i < |listing| && listing[i].kid == k
        decreases todo
      {
        var k :| k in todo;
        var d := Trim(repo[k].descr);
        ghost var before := listing;
        listing := listing + [KeyEntry(k, repo[k].title, d)];
        assert listing[|before|].kid == k;
        assert forall i :: 0 <= i < |before| ==> listing[i] == before[i];
        todo := todo - {k};
      }
    }

    /** As many trailing zeros gone as the device likes. */
    method Trim(d: bytes) returns (t: bytes)
      ensures TrimOf(t, d)
    {
      t := d;
      while |t| > 0 && t[|t| - 1] == 0
        invariant t <= d && AllZero(d[|t|..])
      {
        var more: bool := *;
        if !more {
          break;
        }
        t := t[..|t| - 1];
      }
    }

    /** One page of a search; without a token the device may insist on one, at any point. */
    method SearchKeys(listing: seq<KeyEntry>, token: string, offset: nat, limit: nat) returns (r: Page)
      requires limit > 0
      ensures r.AuthRequired? ==> token == ""
      ensures steady ==> !r.SearchFailed?
      ensures r.Entries? ==> r.total == |listing| && |r.page| <= limit
      ensures r.Entries? && offset < |listing| ==>
                0 < |r.page| <= |listing| - offset && r.page == listing[offset..offset + |r.page|]
      ensures r.Entries? && offset >= |listing| ==> r.page == []
    {
      var up: bool, open: bool := *, *;
      if !up && !steady {
        return SearchFailed;
      }
      if token == "" && !open {
        return AuthRequired;
      }
      if offset >= |listing| {
        return Entries(|listing|, []);
      }
      var n: nat :| 0 < n <= limit && n <= |listing| - offset;
      return Entries(|listing|, listing[offset..offset + n]);
    }
  }
}
