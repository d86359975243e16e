/** TO0 registration: contact rendezvous servers in order until one accepts the blob. */
module RvRegistration {
  import opened Wrappers
  import Hex

  type Url = string

  /** One owner directive, as protocol.ParseOwnerRvInfo returns it. */
  datatype Directive = Directive(bypass: bool, urls: seq<Url>)

  datatype Contact = Contact(guid: Guid, url: Url)

  datatype Failure = BadGuid | NoOwnerInfo | NoDirectives | NoneRegistered

  /** The answer to the k-th contact: the refresh interval, or a failure. */
  type Replies = nat -> Option<u32>

  /** A bypass directive has nothing to contact. */
  function Tried(d: Directive): seq<Url> { if d.bypass then [] else d.urls }

  /** Every URL worth contacting, in order. */
  function Candidates(ds: seq<Directive>): seq<Url> {
    if ds == [] then []
    else Tried(ds[0]) + Candidates(ds[1..])
  }

  lemma {:induction false} CandidatesConcat(a: seq<Directive>, b: seq<Directive>)
    ensures Candidates(a + b) == Candidates(a) + Candidates(b)
  {
    hide Tried;
    if a == [] {
      assert a + b == b;
    } else {
      CandidatesConcat(a[1..], b);
      assert (a + b)[1..] == a[1..] + b;
      Associate(Tried(a[0]), Candidates(a[1..]), Candidates(b));
    }
  }

  /** The URLs of a directive stand together, after those of all earlier directives; a bypass one has none. */
  lemma CandidatesInOrder(ds: seq<Directive>, d: nat)
    requires d < |ds|
    ensures Candidates([]) == []
    ensures Candidates(ds) == Candidates(ds[..d]) + (if ds[d].bypass then [] else ds[d].urls) + Candidates(ds[d + 1..])
  {
    hide Candidates;
    var before, mine, rest := ds[..d], [ds[d]], ds[d + 1..];
    CandidatesOfOne(ds[d]);
    CandidatesConcat(mine, rest);
    CandidatesConcat(before, mine + rest);
    assert Candidates(ds) == Candidates(before + (mine + rest)) by { assert ds == before + (mine + rest); }
    Associate(Candidates(before), Candidates(mine), Candidates(rest));
  }

  lemma Associate(a: seq<Url>, b: seq<Url>, c: seq<Url>)
    ensures a + (b + c) == a + b + c
  {
  }

  lemma CandidatesOfOne(d: Directive)
    ensures Candidates([]) == [] && Candidates([d]) == if d.bypass then [] else d.urls
  {
    assert [d][1..] == [];
  }

  predicate AllBypass(ds: seq<Directive>) { forall d :: 0 <= d < |ds| ==> ds[d].bypass }

  /** How many of n contacts are made: up to and including the first that succeeds. */
  function Made(replies: Replies, n: nat): (k: nat)
    ensures k <= n
    ensures forall i :: 0 <= i < k - 1 ==> replies(i).None?
    ensures k < n ==> k > 0 && replies(k - 1).Some?
    ensures (exists i :: 0 <= i < n && replies(i).Some?) ==> k > 0 && replies(k - 1).Some?
  {
    if n == 0 then 0
    else
      var k := Made(replies, n - 1);
      if k > 0 && replies(k - 1).Some? then k else n
  }

  function Contacts(guid: Guid, urls: seq<Url>): (cs: seq<Contact>)
    ensures |cs| == |urls|
    ensures forall i :: 0 <= i < |cs| ==> cs[i] == Contact(guid, urls[i])
  {
    seq(|urls|, i requires 0 <= i < |urls| => Contact(guid, urls[i]))
  }

  /** The loop over one directive's URLs; `before` contacts were made already. */
  method ContactUrls(guid: Guid, urls: seq<Url>, before: nat, replies: Replies)
    returns (refresh: Option<u32>, made: seq<Contact>)
    ensures |made| <= |urls| && made == Contacts(guid, urls[..|made|])
    ensures refresh.None? ==> |made| == |urls| && forall i :: before <= i < before + |made| ==> replies(i).None?
    ensures refresh.Some? ==> |made| > 0 && replies(before + |made| - 1) == refresh
                              && forall i :: before <= i < before + |made| - 1 ==> replies(i).None?
  {
    made := [];
    for u := 0 to |urls|
      invariant |made| == u && made == Contacts(guid, urls[..u])
      invariant forall i :: before <= i < before + u ==> replies(i).None?
    {
      refresh := replies(before + u);
      made := made + [Contact(guid, urls[u])];
      if refresh.Some? {
        return;
      }
    }
    refresh := None;
  }

  /** The outcome of the loop over directives. */
  function Registered(ds: seq<Directive>, replies: Replies): Result<u32, Failure> {
    var k := Made(replies, |Candidates(ds)|);
    if k > 0 && replies(k - 1).Some? then Ok(replies(k - 1).value)
    else if AllBypass(ds) then Ok(0)
    else Err(NoneRegistered)
  }

  /** The loop over directives: contacts made, and the answer of the last one if it is a success. */
  method TryDirectives(ds: seq<Directive>, guid: Guid, replies: Replies)
    returns (refresh: Option<u32>, made: seq<Contact>, allBypass: bool)
    ensures |made| <= |Candidates(ds)| && made == Contacts(guid, Candidates(ds)[..|made|])
    ensures refresh.None? ==> |made| == |Candidates(ds)| && allBypass == AllBypass(ds)
                              && forall i :: 0 <= i < |made| ==> replies(i).None?
    ensures refresh.Some? ==> |made| > 0 && replies(|made| - 1) == refresh
                              && forall i :: 0 <= i < |made| - 1 ==> replies(i).None?
  {
    hide Contacts, Candidates;
    made := [];
    ghost var done: seq<Url> := [];
    allBypass := true;
    assert ds[0..] == ds && done + Candidates(ds) == Candidates(ds);
    NoDirectivesLeft();
    for d := 0 to |ds|
      invariant allBypass == AllBypass(ds[..d])
      invariant Candidates(ds) == done + Candidates(ds[d..])
      invariant made == Contacts(guid, done)
      invariant forall i :: 0 <= i < |made| ==> replies(i).None?
    {
      OneDirective(ds, d);
      if ds[d].bypass {
        continue;
      }
      allBypass := false;
      var more;
      refresh, more := ContactUrls(guid, ds[d].urls, |made|, replies);
      ghost var tried := ds[d].urls[..|more|];
      ContactsConcat(guid, done, tried);
      SplitConcat(done, ds[d].urls, Candidates(ds[d + 1..]), |more|);
      made := made + more;
      done := done + tried;
      if refresh.Some? {
        assert Candidates(ds)[..|made|] == done;
        return;
      }
    }
    assert ds[|ds|..] == [] && ds[..|ds|] == ds && done == Candidates(ds) && done[..|done|] == done;
    refresh := None;
  }

  /**
   * The contacts made are exactly the prefix, up to the first success, of the URLs of the
   * non-bypass directives.
   */
  method ContactDirectives(ds: seq<Directive>, guid: Guid, replies: Replies)
    returns (r: Result<u32, Failure>, made: seq<Contact>)
    ensures made == Contacts(guid, Candidates(ds)[..Made(replies, |Candidates(ds)|)])
    ensures r == Registered(ds, replies)
  {
    var refresh, allBypass;
    refresh, made, allBypass := TryDirectives(ds, guid, replies);
    if refresh.Some? {
      MadeIs(replies, |Candidates(ds)|, |made|);
      return Ok(refresh.value), made;
    }
    AllFailed(replies, |made|);
    return if allBypass then Ok(0) else Err(NoneRegistered), made;
  }

  lemma NoDirectivesLeft()
    ensures Candidates([]) == []
  {
  }

  lemma OneDirective(ds: seq<Directive>, d: nat)
    requires d < |ds|
    ensures Candidates(ds[d..]) == (if ds[d].bypass then [] else ds[d].urls) + Candidates(ds[d + 1..])
    ensures AllBypass(ds[..d + 1]) <==> AllBypass(ds[..d]) && ds[d].bypass
  {
    assert ds[d..][0] == ds[d] && ds[d..][1..] == ds[d + 1..];
    assert ds[..d + 1] == ds[..d] + [ds[d]];
    if AllBypass(ds[..d + 1]) {
      assert ds[..d + 1][d].bypass;
      assert forall i :: 0 <= i < d ==> ds[..d][i] == ds[..d + 1][i];
    }
  }

  lemma SplitConcat<T>(a: seq<T>, b: seq<T>, c: seq<T>, n: nat)
    requires n <= |b|
    ensures a + (b + c) == (a + b[..n]) + (b[n..] + c)
    ensures n == |b| ==> b[n..] + c == c
  {
    assert b == b[..n] + b[n..];
    assert n == |b| ==> b[n..] == [] && [] + c == c;
  }

  lemma ContactsConcat(guid: Guid, a: seq<Url>, b: seq<Url>)
    ensures Contacts(guid, a + b) == Contacts(guid, a) + Contacts(guid, b)
  {
  }

  lemma AllFailed(replies: Replies, n: nat)
    requires forall i :: 0 <= i < n ==> replies(i).None?
    ensures Made(replies, n) == n
  {
  }

  /** RegisterRvBlob: the GUID from its hex text, the owner's addresses, then the directives. */
  method RegisterRvBlob(ds: seq<Directive>, guidHex: string, ownerInfo: bool, replies: Replies)
    returns (r: Result<u32, Failure>, made: seq<Contact>)
    ensures var g := Hex.Decode(guidHex);
            if g.None? || |g.value| != 16 then r == Err(BadGuid) && made == []
            else if !ownerInfo then r == Err(NoOwnerInfo) && made == []
            else if ds == [] then r == Err(NoDirectives) && made == []
            else r == Registered(ds, replies)
                 && made == Contacts(g.value, Candidates(ds)[..Made(replies, |Candidates(ds)|)])
  {
    made := [];
    var guid := Hex.Decode(guidHex);
    if guid.None? || |guid.value| != 16 {
      return Err(BadGuid), made;
    }
    if !ownerInfo {
      return Err(NoOwnerInfo), made;
    }
    if ds == [] {
      return Err(NoDirectives), made;
    }
    r, made := ContactDirectives(ds, guid.value, replies);
  }

  lemma MadeIs(replies: Replies, n: nat, k: nat)
    requires 0 < k <= n && replies(k - 1).Some? && forall i :: 0 <= i < k - 1 ==> replies(i).None?
    ensures Made(replies, n) == k
  {
    assert 0 <= k - 1 < n && replies(k - 1).Some?;
  }

  /**
   * Success without a contact happens exactly when every directive is bypass; any other success is
   * the answer of the last server contacted, and every earlier one had refused.
   */
  lemma {:induction false} SuccessMeansContact(ds: seq<Directive>, replies: Replies)
    ensures var k := Made(replies, |Candidates(ds)|);
            && (AllBypass(ds) ==> Registered(ds, replies) == Ok(0) && k == 0)
            && (Registered(ds, replies).Ok? && !AllBypass(ds)
                ==> k > 0 && replies(k - 1) == Some(Registered(ds, replies).value)
                    && forall i :: 0 <= i < k - 1 ==> replies(i).None?)
            && (Registered(ds, replies).Err? ==>
                  Registered(ds, replies) == Err(NoneRegistered)
                  && k == |Candidates(ds)| && forall i :: 0 <= i < k ==> replies(i).None?)
  {
    if AllBypass(ds) && ds != [] {
      assert AllBypass(ds[1..]);
      SuccessMeansContact(ds[1..], replies);
      assert Candidates(ds) == Candidates(ds[1..]);
    }
  }

  /** The scheduler's call: it passes the hex text of the voucher's GUID, and only that device is registered. */
  method RegisterDevice(ds: seq<Directive>, g: Guid, ownerInfo: bool, replies: Replies)
    returns (r: Result<u32, Failure>, made: seq<Contact>)
    requires |g| == 16
    ensures |made| <= |Candidates(ds)|
    ensures forall i :: 0 <= i < |made| ==> made[i].guid == g && made[i].url == Candidates(ds)[i]
    ensures r != Err(BadGuid)
    ensures ownerInfo && ds != [] ==> |made| == Made(replies, |Candidates(ds)|) && r == Registered(ds, replies)
  {
    Hex.DecodeEncode(g);
    r, made := RegisterRvBlob(ds, Hex.Encode(g), ownerInfo, replies);
  }
}
