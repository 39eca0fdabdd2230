/** The router's own code: the list of shared channels, its loops and critical sections,
    each proved to be a step of Router. */
module MessageRouter {
  import opened Types
  import opened Routing
  import R = Router

  class Channel {
    ghost const number: nat
    const kind: Kind
    const id: EntityId
    var active: bool
    var failing: bool
    var datagrams: seq<Datagram>
    ghost const born: nat
    ghost var pushed: seq<Datagram>
    ghost var taken: seq<Datagram>

    ghost function Abs(): R.Channel
      reads this
    {
      R.Channel(kind, id, active, failing, datagrams, born, pushed, taken)
    }

    constructor (channelKind: Kind, entity: EntityId, ghost n: nat, ghost since: nat)
      ensures number == n && Abs() == R.Channel(channelKind, entity, true, false, [], since, [], [])
    {
      kind, id, number, born := channelKind, entity, n, since;
      active, failing, datagrams, pushed, taken := true, false, [], [], [];
    }

    /** RoutedTransport::receive once its wait is over. A queued datagram is handed over
        even if the router has failed since, or the channel was closed. */
    method Receive() returns (r: Received)
      modifies this`datagrams, this`taken
      ensures r.Timeout? <==> old(datagrams) == [] && !failing && active
      ensures r.Got? <==> old(datagrams) != []
      ensures r.Got? ==> taken == old(taken) + [r.datagram] && old(datagrams) == [r.datagram] + datagrams
      ensures !r.Got? ==> Abs() == old(Abs())
    {
      if datagrams == [] && !failing && active {
        return Timeout;
      }
      if datagrams != [] {
        var d := datagrams[0];
        datagrams := datagrams[1..];
        taken := taken + [d];
        return Got(d);
      }
      return Failed;
    }
  }

  class Impl {
    var channels: seq<Channel>
    var stopping: bool
    var failed: bool
    /** Every channel ever created, under its number. */
    ghost var all: seq<Channel>
    ghost var receiver: R.Receiver
    ghost var closing: seq<nat>
    ghost var routed: seq<Datagram>
    ghost var pushes: seq<(nat, nat)>

    ghost predicate Valid()
      reads this
    {
      && (forall i | 0 <= i < |all| :: all[i].number == i)
      && (forall i | 0 <= i < |channels| :: channels[i].number < |all| && all[channels[i].number] == channels[i])
    }

    ghost function Numbers(list: seq<Channel>): (r: seq<nat>)
      ensures |r| == |list| && forall i | 0 <= i < |list| :: r[i] == list[i].number
    {
      seq(|list|, i requires 0 <= i < |list| => list[i].number)
    }

    ghost function Values(): (r: seq<R.Channel>)
      reads this`all, all
      ensures |r| == |all| && forall i | 0 <= i < |all| :: r[i] == all[i].Abs()
    {
      var cs := all;
      seq(|cs|, i requires 0 <= i < |cs| reads cs => cs[i].Abs())
    }

    ghost function Abs(): R.State
      reads this, all
    {
      R.State(Values(), Numbers(channels), receiver, stopping, failed, closing, routed, pushes)
    }

    constructor ()
      ensures Valid() && R.Initial(Abs())
    {
      channels, stopping, failed := [], false, false;
      all, receiver, closing, routed, pushes := [], R.Idle, [], [], [];
    }

    method FindDuplicate(kind: Kind, id: EntityId) returns (found: bool)
      requires Valid()
      ensures found <==> R.Duplicate(Abs(), kind, id)
    {
      for i := 0 to |channels|
        invariant forall j | 0 <= j < i :: !(channels[j].active && channels[j].kind == kind && channels[j].id == id)
      {
        var current := channels[i];
        if current.active && current.kind == kind && current.id == id {
          assert Abs().channels[Abs().list[i]] == current.Abs();
          return true;
        }
      }
      return false;
    }

    /** add_channel: refused unless the router runs and no active channel has the same
        kind and id. */
    method AddChannel(kind: Kind, id: EntityId) returns (channel: Channel?)
      requires Valid()
      modifies this`channels, this`all
      ensures Valid() && Abs() == R.Next(old(Abs()), R.Add(kind, id))
      ensures channel != null <==> !stopping && !failed && !R.Duplicate(old(Abs()), kind, id)
      ensures channel != null ==> fresh(channel) && channels == old(channels) + [channel]
    {
      hide R.Duplicate;
      if stopping || failed {
        return null;
      }
      var duplicate := FindDuplicate(kind, id);
      if duplicate {
        return null;
      }
      ghost var values, list := Values(), Numbers(channels);
      channel := new Channel(kind, id, |all|, |routed|);
      channels := channels + [channel];
      all := all + [channel];
      assert Values() == values + [channel.Abs()];
      assert Numbers(channels) == list + [|values|];
    }

    /** remove_channel, under the channel's mutex */
    method Close(channel: Channel)
      requires Valid() && channel.number < |all| && all[channel.number] == channel
      modifies channel`active, channel`datagrams
      ensures Valid() && Abs() == R.Next(old(Abs()), R.Deactivate(channel.number))
    {
      ghost var values := Values();
      channel.active, channel.datagrams := false, [];
      assert Values() == values[channel.number := channel.Abs()];
    }

    /** remove_channel, under the list's mutex */
    method EraseChannel(channel: Channel)
      requires Valid() && channel.number < |all| && all[channel.number] == channel && !channel.active
      modifies this`channels
      ensures Valid() && Abs() == R.Next(old(Abs()), R.Erase(channel.number))
    {
      hide R.Targets;
      hide R.Without;
      hide R.Duplicate;
      hide RouteTarget;
      ghost var values := Values();
      channels := AllBut(channel);
      assert Values() == values;
    }

    /** The erase-remove loop. */
    method AllBut(channel: Channel) returns (kept: seq<Channel>)
      requires Valid() && channel.number < |all| && all[channel.number] == channel
      ensures Numbers(kept) == R.Without(Numbers(channels), channel.number)
      ensures forall k | 0 <= k < |kept| :: kept[k].number < |all| && all[kept[k].number] == kept[k]
    {
      kept := [];
      ghost var list := Numbers(channels);
      for i := 0 to |channels|
        invariant Numbers(kept) == R.Without(list[..i], channel.number)
        invariant forall k | 0 <= k < |kept| :: kept[k].number < |all| && all[kept[k].number] == kept[k]
      {
        assert list[..i + 1][..i] == list[..i] && list[..i + 1][i] == list[i];
        ghost var before := Numbers(kept);
        if channels[i] != channel {
          kept := kept + [channels[i]];
          assert Numbers(kept) == before + [list[i]];
        }
      }
      assert list[..|list|] == list;
    }

    /** receive_loop, under the list's mutex: the channels the datagram concerns */
    method Collect(d: Datagram) returns (targets: seq<Channel>)
      requires Valid() && receiver == R.Routing(d)
      modifies this`receiver, this`routed
      ensures Valid() && Abs() == R.Next(old(Abs()), R.Collect)
      ensures receiver == R.Pushing(Numbers(targets))
      ensures forall c | c in targets :: c in channels
    {
      hide R.Targets;
      hide RouteTarget;
      ghost var values := Values();
      targets := Matching(RouteTarget(d.payload));
      receiver := R.Pushing(Numbers(targets));
      routed := routed + [d];
      assert Values() == values;
    }

    method Matching(target: Option<Target>) returns (targets: seq<Channel>)
      requires Valid()
      ensures Numbers(targets) == R.Targets(Values(), Numbers(channels), target)
      ensures forall c | c in targets :: c in channels
    {
      hide Concerns;
      targets := [];
      ghost var list, values := Numbers(channels), Values();
      for i := 0 to |channels|
        invariant Numbers(targets) == R.Targets(values, list[..i], target)
        invariant forall c | c in targets :: c in channels
      {
        assert list[..i + 1][..i] == list[..i] && list[..i + 1][i] == list[i];
        assert values[list[i]] == channels[i].Abs();
        ghost var before := Numbers(targets);
        if Concerns(target, channels[i].kind, channels[i].id) {
          targets := targets + [channels[i]];
          assert Numbers(targets) == before + [list[i]];
        }
      }
      assert list[..|list|] == list;
    }

    /** receive_loop, under the mutex of the next target */
    method PushTo(channel: Channel, d: Datagram, ghost rest: seq<Channel>)
      requires Valid() && receiver == R.Pushing([channel.number] + Numbers(rest))
      requires routed != [] && d == routed[|routed| - 1]
      requires channel.number < |all| && all[channel.number] == channel
      modifies this`receiver, this`pushes, channel`datagrams, channel`pushed
      ensures Valid() && Abs() == R.Next(old(Abs()), R.Push)
      ensures receiver == R.Pushing(Numbers(rest))
    {
      hide R.Targets;
      hide R.Without;
      hide R.Duplicate;
      hide RouteTarget;
      ghost var values := Values();
      receiver := R.Pushing(Numbers(rest));
      if channel.active {
        channel.datagrams := channel.datagrams + [d];
        channel.pushed := channel.pushed + [d];
        pushes := pushes + [(|routed| - 1, channel.number)];
      } else {
        assert pushes == pushes + [];
      }
      assert Values() == values[channel.number := channel.Abs()];
    }
  }
}
