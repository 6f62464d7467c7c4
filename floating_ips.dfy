// The four handlers of the `floating-ip` command group (create, get, delete,
// list). Each collaborator is a parameter: the resource client as a function
// from its argument to its reply, the configuration values as the values read,
// and the display as a function from the floating IPs handed to it to the
// error it returns.

module FloatingIPCommands {

  import opened FloatingIPTypes

  // ---------------------------------------------------------------------------
  // create

  /**
   * `floating-ip create`. `region` and `dropletID` are the flag values as read
   * (read errors are ignored, so only the values matter); `create` is the
   * client's answer to each request and `display` the display's error.
   */
  function RunCreate(region: string, dropletID: int,
                     create: CreateRequest -> Reply<FloatingIP>,
                     display: seq<FloatingIP> -> Option<Fault>): (o: Outcome)
    // neither locator: missing arguments, client untouched
    ensures region == "" && dropletID == 0 ==> o == Outcome(None, None, Some(MissingArgs))
    // both locators: usage error, client untouched
    ensures region != "" && dropletID != 0 ==> o == Outcome(None, None, Some(Usage))
    // the client is called exactly when one locator is set, with both values as read
    ensures o.called.Some? <==> (region == "") != (dropletID == 0)
    ensures o.called.Some? ==>
      o.called.value == CreateCall(CreateRequest(region, dropletID)) &&
      ExactlyOneLocator(o.called.value.req)
    // a client error comes back unchanged and nothing is displayed
    ensures o.called.Some? && create(CreateRequest(region, dropletID)).Failed? ==>
      o.shown.None? && o.err == Some(Collaborator(create(CreateRequest(region, dropletID)).fault))
    // on success exactly the created IP is displayed; the display's error is returned
    ensures o.called.Some? && create(CreateRequest(region, dropletID)).Returned? ==>
      o.shown == Some([create(CreateRequest(region, dropletID)).value]) &&
      o.err == Lift(display([create(CreateRequest(region, dropletID)).value])) &&
      (o.err.None? <==> display([create(CreateRequest(region, dropletID)).value]).None?)
    ensures WellFormed(o)
  {
    if region == "" && dropletID == 0 then
      Outcome(None, None, Some(MissingArgs))
    else if region != "" && dropletID != 0 then
      Outcome(None, None, Some(Usage))
    else
      var req := CreateRequest(region, dropletID);
      match create(req)
      case Failed(fault) => Outcome(Some(CreateCall(req)), None, Some(Collaborator(fault)))
      case Returned(ip) => Outcome(Some(CreateCall(req)), Some([ip]), Lift(display([ip])))
  }

  /** The request sent to the client keeps the unset locator at its zero value. */
  lemma CreateRequestKeepsZeroValue(region: string, dropletID: int,
                                    create: CreateRequest -> Reply<FloatingIP>,
                                    display: seq<FloatingIP> -> Option<Fault>)
    requires (region == "") != (dropletID == 0)
    ensures RunCreate(region, dropletID, create, display).called.Some?
    ensures var req := RunCreate(region, dropletID, create, display).called.value.req;
      (region == "" ==> req == CreateRequest("", dropletID)) &&
      (dropletID == 0 ==> req == CreateRequest(region, 0))
  {
  }

  // ---------------------------------------------------------------------------
  // get

  /**
   * `floating-ip get <floating-ip>`. `args` are the positional arguments;
   * `get` is the client's answer for each address.
   */
  function RunGet(args: seq<string>,
                  get: string -> Reply<FloatingIP>,
                  display: seq<FloatingIP> -> Option<Fault>): (o: Outcome)
    // not exactly one argument: missing arguments, client untouched
    ensures |args| != 1 ==> o == Outcome(None, None, Some(MissingArgs))
    // a single empty argument: invalid address, client untouched
    ensures |args| == 1 && args[0] == "" ==> o == Outcome(None, None, Some(InvalidIp))
    // the client is called exactly for one non-empty argument, with that argument as given
    ensures o.called.Some? <==> |args| == 1 && args[0] != ""
    ensures o.called.Some? ==> o.called.value == GetCall(args[0])
    // a client error comes back unchanged and nothing is displayed
    ensures o.called.Some? && get(args[0]).Failed? ==>
      o.shown.None? && o.err == Some(Collaborator(get(args[0]).fault))
    // on success exactly the fetched IP is displayed; the display's error is returned
    ensures o.called.Some? && get(args[0]).Returned? ==>
      o.shown == Some([get(args[0]).value]) && o.err == Lift(display([get(args[0]).value])) &&
      (o.err.None? <==> display([get(args[0]).value]).None?)
    ensures WellFormed(o)
  {
    if |args| != 1 then
      Outcome(None, None, Some(MissingArgs))
    else
      var ip := args[0];
      if |ip| < 1 then
        Outcome(None, None, Some(InvalidIp))
      else
        match get(ip)
        case Failed(fault) => Outcome(Some(GetCall(ip)), None, Some(Collaborator(fault)))
        case Returned(fip) => Outcome(Some(GetCall(ip)), Some([fip]), Lift(display([fip])))
  }

  /** Only the empty string is refused: an address of blanks reaches the client untrimmed. */
  lemma GetDoesNotTrim(get: string -> Reply<FloatingIP>,
                       display: seq<FloatingIP> -> Option<Fault>)
    ensures RunGet([" "], get, display).called == Some(GetCall(" "))
    ensures RunGet([""], get, display).err == Some(InvalidIp)
  {
  }

  // ---------------------------------------------------------------------------
  // delete

  /**
   * `floating-ip delete <floating-ip>`. `delete` is the client's error (if any)
   * for each address. Unlike get, an empty address is passed to the client.
   */
  function RunDelete(args: seq<string>,
                     delete: string -> Option<Fault>): (o: Outcome)
    // not exactly one argument: missing arguments, client untouched
    ensures |args| != 1 <==> o.called.None?
    ensures |args| != 1 ==> o.err == Some(MissingArgs)
    // otherwise the result is exactly the client's delete result for args[0]
    ensures |args| == 1 ==>
      o.called == Some(DeleteCall(args[0])) && o.err == Lift(delete(args[0])) &&
      (o.err.None? <==> delete(args[0]).None?)
    // delete never displays anything
    ensures o.shown.None?
    ensures WellFormed(o)
  {
    if |args| != 1 then
      Outcome(None, None, Some(MissingArgs))
    else
      var ip := args[0];
      Outcome(Some(DeleteCall(ip)), None, Lift(delete(ip)))
  }

  /** A successful delete returns no error and displays nothing. */
  lemma DeleteSilentOnSuccess(args: seq<string>, delete: string -> Option<Fault>)
    requires |args| == 1 && delete(args[0]).None?
    ensures RunDelete(args, delete) == Outcome(Some(DeleteCall(args[0])), None, None)
  {
  }

  // ---------------------------------------------------------------------------
  // list

  /** The list filter: an entry stays when the filter is blank or equals its region slug. */
  predicate Keep(filter: string, fip: FloatingIP) {
    filter == "" || filter == fip.region.slug
  }

  /** The entries of `s` that `filter` keeps, in their order in `s`. */
  function Filtered(s: seq<FloatingIP>, filter: string): seq<FloatingIP> {
    if s == [] then []
    else (if Keep(filter, s[0]) then [s[0]] else []) + Filtered(s[1..], filter)
  }

  /**
   * `floating-ip list`. `regionRead` is the configuration read of the region
   * flag, `list` the client's list reply. The loop keeps each entry unless a
   * non-empty filter differs from its region slug.
   */
  method RunList(regionRead: Reply<string>, list: Reply<seq<FloatingIP>>,
                 display: seq<FloatingIP> -> Option<Fault>) returns (o: Outcome)
    // a configuration error comes back unchanged, before the client is called
    ensures regionRead.Failed? ==> o == Outcome(None, None, Some(Collaborator(regionRead.fault)))
    // a client error comes back unchanged and nothing is displayed
    ensures regionRead.Returned? && list.Failed? ==>
      o == Outcome(Some(ListCall), None, Some(Collaborator(list.fault)))
    // otherwise the filtered list is displayed and the display's error returned
    ensures regionRead.Returned? && list.Returned? ==>
      o.called == Some(ListCall) &&
      o.shown == Some(Filtered(list.value, regionRead.value)) &&
      o.err == Lift(display(Filtered(list.value, regionRead.value))) &&
      (o.err.None? <==> display(Filtered(list.value, regionRead.value)).None?)
    ensures WellFormed(o)
  {
    if regionRead.Failed? {
      return Outcome(None, None, Some(Collaborator(regionRead.fault)));
    }
    var region := regionRead.value;
    if list.Failed? {
      return Outcome(Some(ListCall), None, Some(Collaborator(list.fault)));
    }
    var entries := list.value;
    var fips: seq<FloatingIP> := [];
    for i := 0 to |entries|
      invariant fips == Filtered(entries[..i], region)
    {
      var fip := entries[i];
      var skip := false;
      if region != "" && region != fip.region.slug {
        skip := true;
      }
      FilteredAppend(entries[..i], fip, region);
      assert entries[..i + 1] == entries[..i] + [fip];
      if !skip {
        fips := fips + [fip];
      }
    }
    assert entries[..|entries|] == entries;
    o := Outcome(Some(ListCall), Some(fips), Lift(display(fips)));
  }

  // ---------------------------------------------------------------------------
  // properties of the list filter

  /** Filtering one more entry extends the result by that entry exactly when it is kept. */
  lemma {:induction false} FilteredAppend(s: seq<FloatingIP>, x: FloatingIP, filter: string)
    ensures Filtered(s + [x], filter) == Filtered(s, filter) + (if Keep(filter, x) then [x] else [])
  {
    if s == [] {
      assert s + [x] == [x];
    } else {
      assert (s + [x])[1..] == s[1..] + [x];
      FilteredAppend(s[1..], x, filter);
    }
  }

  /** The filtered list is never longer than the client's list. */
  lemma {:induction false} FilteredNoLonger(s: seq<FloatingIP>, filter: string)
    ensures |Filtered(s, filter)| <= |s|
  {
    if s != [] {
      FilteredNoLonger(s[1..], filter);
    }
  }

  /** An empty filter displays the client's list unchanged. */
  lemma {:induction false} FilteredEmptyIsIdentity(s: seq<FloatingIP>)
    ensures Filtered(s, "") == s
  {
    if s != [] {
      FilteredEmptyIsIdentity(s[1..]);
      assert [s[0]] + s[1..] == s;
    }
  }

  /**
   * An entry is displayed exactly when the client returned it and the filter
   * keeps it; with a non-empty filter, every displayed entry is in that region.
   */
  lemma {:induction false} FilteredMembers(s: seq<FloatingIP>, filter: string, x: FloatingIP)
    ensures x in Filtered(s, filter) <==> x in s && Keep(filter, x)
    ensures filter != "" && x in Filtered(s, filter) ==> x.region.slug == filter
  {
    if s != [] {
      FilteredMembers(s[1..], filter, x);
      assert s == [s[0]] + s[1..];
    }
  }

  /** Each kept entry appears in the result as many times as in the client's list; the others not at all. */
  lemma {:induction false} FilteredCounts(s: seq<FloatingIP>, filter: string, x: FloatingIP)
    ensures multiset(Filtered(s, filter))[x] == if Keep(filter, x) then multiset(s)[x] else 0
  {
    if s != [] {
      FilteredCounts(s[1..], filter, x);
      assert s == [s[0]] + s[1..];
    }
  }

  /** `a` is `b` with some entries removed, the rest in their original order. */
  predicate IsSubsequence(a: seq<FloatingIP>, b: seq<FloatingIP>)
    decreases |b|, |a|
  {
    if a == [] then true
    else if b == [] then false
    else if a[0] == b[0] then IsSubsequence(a[1..], b[1..])
    else IsSubsequence(a, b[1..])
  }

  /** Filtering preserves the client's order: the result is a subsequence of its list. */
  lemma {:induction false} FilteredPreservesOrder(s: seq<FloatingIP>, filter: string)
    ensures IsSubsequence(Filtered(s, filter), s)
  {
    if s != [] {
      FilteredPreservesOrder(s[1..], filter);
      var rest := Filtered(s[1..], filter);
      if Keep(filter, s[0]) {
        assert Filtered(s, filter) == [s[0]] + rest;
        assert ([s[0]] + rest)[1..] == rest;
      } else {
        assert Filtered(s, filter) == rest;
        SubsequenceDropFront(rest, s);
      }
    }
  }

  /** Dropping the head of the longer sequence keeps a subsequence that does not need it. */
  lemma {:induction false} SubsequenceDropFront(a: seq<FloatingIP>, b: seq<FloatingIP>)
    requires b != [] && IsSubsequence(a, b[1..])
    ensures IsSubsequence(a, b)
    decreases |b|, |a|
  {
    if a != [] && a[0] == b[0] {
      // b[1..] must supply a[0] somewhere; so it supplies a[1..] after that point
      SubsequenceTail(a, b[1..]);
    }
  }

  /** A non-empty subsequence of `b` loses its head and stays a subsequence of `b`. */
  lemma {:induction false} SubsequenceTail(a: seq<FloatingIP>, b: seq<FloatingIP>)
    requires a != [] && IsSubsequence(a, b)
    ensures IsSubsequence(a[1..], b)
    decreases |b|, |a|
  {
    assert b != [];
    if a[0] == b[0] {
      if a[1..] != [] {
        SubsequenceDropFront(a[1..], b);
      }
    } else {
      SubsequenceTail(a, b[1..]);
      if a[1..] != [] {
        SubsequenceDropFront(a[1..], b);
      }
    }
  }

  /** Filtering twice with the same filter is filtering once. */
  lemma {:induction false} FilteredIdempotent(s: seq<FloatingIP>, filter: string)
    ensures Filtered(Filtered(s, filter), filter) == Filtered(s, filter)
  {
    if s != [] {
      FilteredIdempotent(s[1..], filter);
      var rest := Filtered(s[1..], filter);
      if Keep(filter, s[0]) {
        var t := [s[0]] + rest;
        assert Filtered(s, filter) == t;
        assert t[0] == s[0] && t[1..] == rest;
        assert Filtered(t, filter) == [s[0]] + Filtered(rest, filter);
      } else {
        assert Filtered(s, filter) == [] + rest;
        assert [] + rest == rest;
      }
    }
  }

  /** Filtering on "nyc1" keeps "a" in nyc1 and drops "b" in ams3. */
  lemma FilterExample()
    ensures var a := FloatingIP("a", Region("nyc1"), None);
            var b := FloatingIP("b", Region("ams3"), None);
            Filtered([a, b], "nyc1") == [a]
  {
    var a := FloatingIP("a", Region("nyc1"), None);
    var b := FloatingIP("b", Region("ams3"), None);
    assert [a, b][1..] == [b];
    assert [b][1..] == [];
    assert Filtered([b], "nyc1") == [];
    assert Filtered([a, b], "nyc1") == [a] + Filtered([b], "nyc1");
  }
}
