/** The Cassandra seed provider: the endpoints of the Cassandra service, flattened and resolved, or the
    default seeds when there are none. */
module Seeds {
  import opened Outcomes

  /** The API leaves any of these out; an absent value is a null of the original. */
  datatype Address = Address(ip: Option<string>)
  datatype Subset = Subset(addresses: Option<seq<Option<Address>>>)
  datatype Endpoints = Endpoints(subsets: Option<seq<Option<Subset>>>)

  type Inet = string

  /** Resolving a host name; a library function, so any partial function. */
  type Resolver = string -> Option<Inet>

  // ----- What is asked for

  function AddressIps(addresses: seq<Option<Address>>): seq<string> {
    if addresses == [] then []
    else
      var last := addresses[|addresses| - 1];
      AddressIps(addresses[..|addresses| - 1]) + if last.Some? && last.value.ip.Some? then [last.value.ip.value] else []
  }

  function SubsetIps(subsets: seq<Option<Subset>>): seq<string> {
    if subsets == [] then []
    else
      var last := subsets[|subsets| - 1];
      SubsetIps(subsets[..|subsets| - 1]) +
      if last.Some? && last.value.addresses.Some? then AddressIps(last.value.addresses.value) else []
  }

  /** All addresses that are present, in order. */
  function EndpointIps(endpoints: Option<Endpoints>): seq<string> {
    if endpoints.Some? && endpoints.value.subsets.Some? then SubsetIps(endpoints.value.subsets.value) else []
  }

  /** The address at position j of subset i is there. */
  ghost predicate Present(subsets: seq<Option<Subset>>, i: int, j: int) {
    && 0 <= i < |subsets| && subsets[i].Some? && subsets[i].value.addresses.Some?
    && var addresses := subsets[i].value.addresses.value;
       0 <= j < |addresses| && addresses[j].Some? && addresses[j].value.ip.Some?
  }

  ghost function IpAt(subsets: seq<Option<Subset>>, i: int, j: int): string
    requires Present(subsets, i, j)
  {
    subsets[i].value.addresses.value[j].value.ip.value
  }

  ghost predicate HasIp(addresses: seq<Option<Address>>, j: int) {
    0 <= j < |addresses| && addresses[j].Some? && addresses[j].value.ip.Some?
  }

  /** The names are those of the present addresses at these positions, which are all there are, in order. */
  ghost predicate AddressesAt(addresses: seq<Option<Address>>, names: seq<string>, pos: seq<int>) {
    && |pos| == |names|
    && (forall k :: 0 <= k < |pos| ==> HasIp(addresses, pos[k]) && names[k] == addresses[pos[k]].value.ip.value)
    && (forall k, l :: 0 <= k < l < |pos| ==> pos[k] < pos[l])
    && (forall j :: HasIp(addresses, j) ==> j in pos)
  }

  lemma SkipAddress(addresses: seq<Option<Address>>, names: seq<string>, pos: seq<int>)
    requires addresses != [] && AddressesAt(addresses[..|addresses| - 1], names, pos)
    requires !HasIp(addresses, |addresses| - 1)
    ensures AddressesAt(addresses, names, pos)
  {
    var n := |addresses| - 1;
    assert forall j :: HasIp(addresses[..n], j) <==> j < n && HasIp(addresses, j);
  }

  lemma AddAddress(addresses: seq<Option<Address>>, names: seq<string>, pos: seq<int>)
    requires addresses != [] && AddressesAt(addresses[..|addresses| - 1], names, pos)
    requires HasIp(addresses, |addresses| - 1)
    ensures AddressesAt(addresses, names + [addresses[|addresses| - 1].value.ip.value], pos + [|addresses| - 1])
  {
    var n := |addresses| - 1;
    assert forall j :: HasIp(addresses[..n], j) <==> j < n && HasIp(addresses, j);
    forall j | HasIp(addresses, j) ensures j in pos + [n] {
      assert j < n ==> HasIp(addresses[..n], j);
    }
  }

  lemma {:induction false} AddressPositions(addresses: seq<Option<Address>>) returns (pos: seq<int>)
    ensures AddressesAt(addresses, AddressIps(addresses), pos)
  {
    if addresses == [] {
      pos := [];
    } else {
      var n := |addresses| - 1;
      pos := AddressPositions(addresses[..n]);
      if HasIp(addresses, n) {
        AddAddress(addresses, AddressIps(addresses[..n]), pos);
        pos := pos + [n];
      } else {
        SkipAddress(addresses, AddressIps(addresses[..n]), pos);
        assert AddressIps(addresses) == AddressIps(addresses[..n]) + [];
      }
    }
  }

  predicate Precedes(a: (int, int), b: (int, int)) {
    a.0 < b.0 || (a.0 == b.0 && a.1 < b.1)
  }

  ghost predicate SubsetsAt(subsets: seq<Option<Subset>>, names: seq<string>, pos: seq<(int, int)>) {
    && |pos| == |names|
    && (forall k :: 0 <= k < |pos| ==>
          Present(subsets, pos[k].0, pos[k].1) && names[k] == IpAt(subsets, pos[k].0, pos[k].1))
    && (forall k, l :: 0 <= k < l < |pos| ==> Precedes(pos[k], pos[l]))
    && (forall i, j :: Present(subsets, i, j) ==> (i, j) in pos)
  }

  lemma PresentBefore(subsets: seq<Option<Subset>>, n: nat, i: int, j: int)
    requires n < |subsets| && i < n
    ensures Present(subsets[..n], i, j) <==> Present(subsets, i, j)
    ensures Present(subsets, i, j) ==> IpAt(subsets[..n], i, j) == IpAt(subsets, i, j)
  {
  }

  lemma SkipSubset(subsets: seq<Option<Subset>>, names: seq<string>, pos: seq<(int, int)>)
    requires subsets != [] && SubsetsAt(subsets[..|subsets| - 1], names, pos)
    requires var last := subsets[|subsets| - 1]; last.None? || last.value.addresses.None?
    ensures SubsetsAt(subsets, names, pos)
  {
    var n := |subsets| - 1;
    forall i, j | i < n ensures Present(subsets[..n], i, j) <==> Present(subsets, i, j) {
      PresentBefore(subsets, n, i, j);
    }
  }

  lemma AddSubset(subsets: seq<Option<Subset>>, names: seq<string>, pos: seq<(int, int)>, more: seq<string>,
                  last: seq<int>) returns (all: seq<(int, int)>)
    requires subsets != [] && SubsetsAt(subsets[..|subsets| - 1], names, pos)
    requires subsets[|subsets| - 1].Some? && subsets[|subsets| - 1].value.addresses.Some?
    requires AddressesAt(subsets[|subsets| - 1].value.addresses.value, more, last)
    ensures SubsetsAt(subsets, names + more, all)
  {
    var n := |subsets| - 1;
    var added := seq(|last|, k requires 0 <= k < |last| => (n, last[k]));
    all := pos + added;
    forall k | 0 <= k < |all|
      ensures Present(subsets, all[k].0, all[k].1) && (names + more)[k] == IpAt(subsets, all[k].0, all[k].1)
    {
      if k < |pos| {
        PresentBefore(subsets, n, pos[k].0, pos[k].1);
      } else {
        assert HasIp(subsets[n].value.addresses.value, last[k - |pos|]);
      }
    }
    forall i, j | Present(subsets, i, j) ensures (i, j) in all {
      if i < n {
        PresentBefore(subsets, n, i, j);
      } else {
        assert HasIp(subsets[n].value.addresses.value, j);
        var k :| 0 <= k < |last| && last[k] == j;
        assert all[|pos| + k] == (i, j);
      }
    }
  }

  /** The names of the endpoints are the present addresses, each once, subset after subset and in order. */
  lemma {:induction false} SubsetPositions(subsets: seq<Option<Subset>>) returns (pos: seq<(int, int)>)
    ensures SubsetsAt(subsets, SubsetIps(subsets), pos)
  {
    if subsets == [] {
      pos := [];
    } else {
      var n := |subsets| - 1;
      pos := SubsetPositions(subsets[..n]);
      if subsets[n].Some? && subsets[n].value.addresses.Some? {
        var last := AddressPositions(subsets[n].value.addresses.value);
        pos := AddSubset(subsets, SubsetIps(subsets[..n]), pos, AddressIps(subsets[n].value.addresses.value), last);
      } else {
        SkipSubset(subsets, SubsetIps(subsets[..n]), pos);
      }
    }
  }

  /** Either every name is resolved or none is. */
  function ResolveAll(names: seq<string>, resolve: Resolver): (r: Option<seq<Inet>>)
    ensures r.Some? <==> forall i :: 0 <= i < |names| ==> resolve(names[i]).Some?
    ensures r.Some? ==> |r.value| == |names| && forall i :: 0 <= i < |names| ==> resolve(names[i]) == Some(r.value[i])
  {
    if names == [] then Some([])
    else
      var n := |names| - 1;
      assert forall i :: 0 <= i < n ==> names[i] == names[..n][i];
      match (ResolveAll(names[..n], resolve), resolve(names[n]))
      case (Some(inits), Some(last)) => Some(inits + [last])
      case _ => None
  }

  // ----- Splitting at commas

  function CommaAt(s: string): (n: nat)
    ensures n <= |s| && (n < |s| ==> s[n] == ',') && forall i :: 0 <= i < n ==> s[i] != ','
  {
    if s == "" || s[0] == ',' then 0
    else
      var n := 1 + CommaAt(s[1..]);
      assert forall i :: 0 < i < n ==> s[i] == s[1..][i - 1];
      n
  }

  function Pieces(s: string): (pieces: seq<string>)
    ensures |pieces| >= 1
  {
    var n := CommaAt(s);
    if n == |s| then [s] else [s[..n]] + Pieces(s[n + 1..])
  }

  function DropTrailingEmpty(pieces: seq<string>): seq<string> {
    if pieces != [] && pieces[|pieces| - 1] == "" then DropTrailingEmpty(pieces[..|pieces| - 1]) else pieces
  }

  /** String.split: a text without a comma is one piece, and trailing empty pieces are dropped. */
  function SplitAtCommas(s: string): seq<string> {
    if |Pieces(s)| == 1 then Pieces(s) else DropTrailingEmpty(Pieces(s))
  }

  /** What is dropped is the empty pieces at the end, and only those. */
  lemma {:induction false} DroppedAreEmpty(pieces: seq<string>)
    ensures DropTrailingEmpty(pieces) <= pieces
    ensures forall i :: |DropTrailingEmpty(pieces)| <= i < |pieces| ==> pieces[i] == ""
    ensures var kept := DropTrailingEmpty(pieces); kept != [] ==> kept[|kept| - 1] != ""
  {
    if pieces != [] && pieces[|pieces| - 1] == "" {
      DroppedAreEmpty(pieces[..|pieces| - 1]);
      assert forall i :: 0 <= i < |pieces| - 1 ==> pieces[..|pieces| - 1][i] == pieces[i];
    }
  }

  function Join(pieces: seq<string>): string
    requires |pieces| >= 1
  {
    if |pieces| == 1 then pieces[0] else pieces[0] + "," + Join(pieces[1..])
  }

  lemma JoinCons(piece: string, rest: seq<string>)
    requires |rest| >= 1
    ensures Join([piece] + rest) == piece + "," + Join(rest)
  {
    assert ([piece] + rest)[1..] == rest;
  }

  predicate NoComma(piece: string) {
    forall j :: 0 <= j < |piece| ==> piece[j] != ','
  }

  /** The pieces are the text between the commas: joined they give the text, and none has a comma. */
  lemma {:induction false} PiecesJoin(s: string)
    ensures Join(Pieces(s)) == s
    ensures forall i :: 0 <= i < |Pieces(s)| ==> NoComma(Pieces(s)[i])
  {
    var n := CommaAt(s);
    assert NoComma(s[..n]);
    if n == |s| {
      assert s[..n] == s;
    } else {
      PiecesJoin(s[n + 1..]);
      JoinCons(s[..n], Pieces(s[n + 1..]));
      assert s == s[..n] + "," + s[n + 1..];
    }
  }

  predicate AllEmpty(pieces: seq<string>) {
    forall i :: 0 <= i < |pieces| ==> pieces[i] == ""
  }

  /** The pieces have no comma, and with commas between them they are the text. */
  predicate IsCut(pieces: seq<string>, s: string) {
    pieces != [] && Join(pieces) == s && forall i :: 0 <= i < |pieces| ==> NoComma(pieces[i])
  }

  lemma SplitDropsEmpty(s: string)
    requires !NoComma(s) && IsCut(Pieces(s), s)
    ensures exists dropped :: IsCut(SplitAtCommas(s) + dropped, s) && AllEmpty(dropped)
    ensures SplitAtCommas(s) != [] ==> SplitAtCommas(s)[|SplitAtCommas(s)| - 1] != ""
  {
    var pieces := Pieces(s);
    assert CommaAt(s) < |s| && |pieces| >= 2;
    DroppedAreEmpty(pieces);
    var kept := DropTrailingEmpty(pieces);
    assert kept + pieces[|kept|..] == pieces && AllEmpty(pieces[|kept|..]);
  }

  /** A text without a comma is one piece, which may be empty. Any other text is cut at every comma, and the empty
      pieces at its end are dropped. */
  lemma SplitMeaning(s: string)
    ensures NoComma(s) ==> SplitAtCommas(s) == [s]
    ensures !NoComma(s) ==> exists dropped :: IsCut(SplitAtCommas(s) + dropped, s) && AllEmpty(dropped)
    ensures !NoComma(s) && SplitAtCommas(s) != [] ==> SplitAtCommas(s)[|SplitAtCommas(s)| - 1] != ""
  {
    PiecesJoin(s);
    if NoComma(s) {
      assert CommaAt(s) == |s|;
    } else {
      SplitDropsEmpty(s);
    }
  }

  function DefaultSeeds(seedsVariable: Option<string>, podIp: Option<string>): string {
    if seedsVariable.Some? && seedsVariable.value != "" then seedsVariable.value
    else if podIp.Some? then podIp.value else ""
  }

  /** The names to resolve: those of the endpoints, or the defaults if there are none. */
  function Wanted(endpoints: Option<Endpoints>, defaults: string): seq<string> {
    if EndpointIps(endpoints) != [] then EndpointIps(endpoints) else SplitAtCommas(defaults)
  }

  lemma {:induction false} ResolvePrefix(a: seq<string>, b: seq<string>, resolve: Resolver)
    requires ResolveAll(a, resolve).None?
    ensures ResolveAll(a + b, resolve).None?
  {
    var i :| 0 <= i < |a| && resolve(a[i]).None?;
    assert (a + b)[i] == a[i];
  }

  lemma ResolveSnoc(a: seq<string>, name: string, resolve: Resolver)
    ensures ResolveAll(a + [name], resolve) ==
            match (ResolveAll(a, resolve), resolve(name)) case (Some(s), Some(x)) => Some(s + [x]) case _ => None
  {
    assert (a + [name])[..|a|] == a;
  }

  lemma {:induction false} AddressIpsPrefix(addresses: seq<Option<Address>>, n: nat)
    requires n <= |addresses|
    ensures AddressIps(addresses[..n]) <= AddressIps(addresses)
  {
    if n == |addresses| {
      assert addresses[..n] == addresses;
    } else {
      AddressIpsPrefix(addresses[..|addresses| - 1], n);
      assert addresses[..|addresses| - 1][..n] == addresses[..n];
    }
  }

  lemma {:induction false} SubsetIpsPrefix(subsets: seq<Option<Subset>>, n: nat)
    requires n <= |subsets|
    ensures SubsetIps(subsets[..n]) <= SubsetIps(subsets)
  {
    if n == |subsets| {
      assert subsets[..n] == subsets;
    } else {
      SubsetIpsPrefix(subsets[..|subsets| - 1], n);
      assert subsets[..|subsets| - 1][..n] == subsets[..n];
    }
  }

  /** A name that does not resolve among the addresses seen so far leaves all of them unresolved. */
  lemma FailedAddress(before: seq<string>, seen: seq<string>, all: seq<string>, resolve: Resolver)
    requires ResolveAll(before + seen, resolve).None? && before + seen <= all
    ensures ResolveAll(all, resolve).None?
  {
    ResolvePrefix(before + seen, all[|before + seen|..], resolve);
    assert all == (before + seen) + all[|before + seen|..];
  }

  lemma AddressStep(addresses: seq<Option<Address>>, i: nat)
    requires i < |addresses|
    ensures var a := addresses[i];
            AddressIps(addresses[..i + 1]) ==
            AddressIps(addresses[..i]) + if a.Some? && a.value.ip.Some? then [a.value.ip.value] else []
  {
    assert addresses[..i + 1][..i] == addresses[..i];
  }

  lemma SubsetStep(subsets: seq<Option<Subset>>, i: nat)
    requires i < |subsets|
    ensures var s := subsets[i];
            SubsetIps(subsets[..i + 1]) ==
            SubsetIps(subsets[..i]) +
            if s.Some? && s.value.addresses.Some? then AddressIps(s.value.addresses.value) else []
  {
    assert subsets[..i + 1][..i] == subsets[..i];
  }

  /** One more name after the addresses of the subset seen so far. */
  lemma NextAddress(before: seq<string>, addresses: seq<Option<Address>>, i: nat, seeds: seq<Inet>, resolve: Resolver)
    requires i < |addresses| && ResolveAll(before + AddressIps(addresses[..i]), resolve) == Some(seeds)
    ensures var a, next := addresses[i], ResolveAll(before + AddressIps(addresses[..i + 1]), resolve);
            if !(a.Some? && a.value.ip.Some?) then next == Some(seeds)
            else match resolve(a.value.ip.value)
                 case Some(inet) => next == Some(seeds + [inet])
                 case None => ResolveAll(before + AddressIps(addresses), resolve).None?
  {
    var a, seen := addresses[i], AddressIps(addresses[..i]);
    AddressStep(addresses, i);
    if a.Some? && a.value.ip.Some? {
      var name := a.value.ip.value;
      ResolveSnoc(before + seen, name, resolve);
      assert before + (seen + [name]) == (before + seen) + [name];
      if resolve(name).None? {
        AddressIpsPrefix(addresses, i + 1);
        FailedAddress(before, seen + [name], before + AddressIps(addresses), resolve);
      }
    } else {
      assert seen + [] == seen;
    }
  }

  /** The seeds are the names resolved in order, or none when a name does not resolve. */
  ghost predicate Resolves(names: seq<string>, resolve: Resolver, seeds: seq<Inet>) {
    if forall i :: 0 <= i < |names| ==> resolve(names[i]).Some?
    then |seeds| == |names| && forall i :: 0 <= i < |names| ==> resolve(names[i]) == Some(seeds[i])
    else seeds == []
  }

  /** The loop over the addresses of one subset. */
  method AddAddresses(seeds: seq<Inet>, addresses: seq<Option<Address>>, ghost before: seq<string>, resolve: Resolver)
    returns (r: Option<seq<Inet>>)
    requires ResolveAll(before, resolve) == Some(seeds)
    ensures r == ResolveAll(before + AddressIps(addresses), resolve)
  {
    var all := seeds;
    assert before + [] == before;
    for i := 0 to |addresses|
      invariant ResolveAll(before + AddressIps(addresses[..i]), resolve) == Some(all)
    {
      NextAddress(before, addresses, i, all, resolve);
      var address := addresses[i];
      if address.Some? && address.value.ip.Some? {
        var inet := resolve(address.value.ip.value);
        if inet.None? {
          return None;
        }
        all := all + [inet.value];
      }
    }
    assert addresses[..|addresses|] == addresses;
    return Some(all);
  }

  /** The loop over the subsets of the endpoints. */
  method AddSubsets(subsets: seq<Option<Subset>>, resolve: Resolver) returns (r: Option<seq<Inet>>)
    ensures r == ResolveAll(SubsetIps(subsets), resolve)
  {
    var seeds: seq<Inet> := [];
    for i := 0 to |subsets|
      invariant ResolveAll(SubsetIps(subsets[..i]), resolve) == Some(seeds)
    {
      SubsetStep(subsets, i);
      assert SubsetIps(subsets[..i]) + [] == SubsetIps(subsets[..i]);
      var subset := subsets[i];
      if subset.Some? && subset.value.addresses.Some? {
        var more := AddAddresses(seeds, subset.value.addresses.value, SubsetIps(subsets[..i]), resolve);
        if more.None? {
          SubsetIpsPrefix(subsets, i + 1);
          FailedAddress(SubsetIps(subsets[..i]), AddressIps(subset.value.addresses.value), SubsetIps(subsets), resolve);
          return None;
        }
        seeds := more.value;
      }
    }
    assert subsets[..|subsets|] == subsets;
    return Some(seeds);
  }

  /** The loop over the default seeds. */
  method AddDefaults(defaults: seq<string>, resolve: Resolver) returns (r: Option<seq<Inet>>)
    ensures r == ResolveAll(defaults, resolve)
  {
    var seeds: seq<Inet> := [];
    for i := 0 to |defaults|
      invariant ResolveAll(defaults[..i], resolve) == Some(seeds)
    {
      var inet := resolve(defaults[i]);
      ResolveSnoc(defaults[..i], defaults[i], resolve);
      assert defaults[..i + 1] == defaults[..i] + [defaults[i]];
      if inet.None? {
        FailedAddress([], defaults[..i + 1], defaults, resolve);
        return None;
      }
      seeds := seeds + [inet.value];
    }
    assert defaults[..|defaults|] == defaults;
    return Some(seeds);
  }

  /** The seeds: the endpoints resolved in order or else the defaults, and on any failure no seed at all. */
  method GetSeeds(read: Option<Option<Endpoints>>, seedsVariable: Option<string>, podIp: Option<string>,
                  resolve: Resolver)
    returns (seeds: seq<Inet>)
    ensures read.None? ==> seeds == []
    ensures read.Some? ==>
              var resolved := ResolveAll(Wanted(read.value, DefaultSeeds(seedsVariable, podIp)), resolve);
              seeds == if resolved.Some? then resolved.value else []
    ensures read.Some? && EndpointIps(read.value) != [] ==> Resolves(EndpointIps(read.value), resolve, seeds)
    ensures read.Some? && EndpointIps(read.value) == [] ==>
              match (seedsVariable, podIp)
              case (Some(text), _) =>
                if text != "" then Resolves(SplitAtCommas(text), resolve, seeds)
                else if podIp.Some? then Resolves(SplitAtCommas(podIp.value), resolve, seeds)
                else Resolves([""], resolve, seeds)
              case (None, Some(text)) => Resolves(SplitAtCommas(text), resolve, seeds)
              case (None, None) => Resolves([""], resolve, seeds)
  {
    seeds := [];
    var initialSeeds := if seedsVariable.Some? then seedsVariable.value else "";
    if initialSeeds == "" {
      initialSeeds := if podIp.Some? then podIp.value else "";
    }
    if read.None? {
      return [];
    }
    var endpoints := read.value;
    if endpoints.Some? && endpoints.value.subsets.Some? {
      var r := AddSubsets(endpoints.value.subsets.value, resolve);
      if r.None? {
        return [];
      }
      seeds := r.value;
    }
    if |seeds| == 0 {
      var r := AddDefaults(SplitAtCommas(initialSeeds), resolve);
      if r.None? {
        return [];
      }
      seeds := r.value;
    }
  }
}
