/** What one node remembers of the detection zones (DetectionZoneManager.cpp). */
module DetectionZoneManager {
  import opened Commons
  import opened Zones
  import TarjanModel

  /** The zone table: a later zone with the same leader replaces an earlier one, empty zones are skipped. */
  function Table(zones: seq<seq<NodeId>>, leaders: seq<NodeId>): map<NodeId, seq<NodeId>>
    requires |leaders| >= |zones|
  {
    if zones == [] then map[]
    else
      var n := |zones| - 1;
      var before := Table(zones[..n], leaders[..n]);
      if zones[n] == [] then before else before[leaders[n] := zones[n]]
  }

  class DetectionZoneManager {
    const nodeId: NodeId
    var detectionZones: map<NodeId, seq<NodeId>>
    var myZoneLeaderId: NodeId
    var myDetectionZoneMembers: seq<NodeId>

    /** A node starts as the leader of a zone of its own. */
    constructor (node: NodeId)
      ensures nodeId == node && myZoneLeaderId == node && myDetectionZoneMembers == [node]
      ensures detectionZones == map[node := [node]]
    {
      nodeId := node;
      detectionZones, myZoneLeaderId, myDetectionZoneMembers := map[node := [node]], node, [node];
    }

    method UpdateDetectionZones(newZones: seq<seq<NodeId>>, newLeaders: seq<NodeId>)
      requires |newLeaders| >= |newZones|
      modifies this
      ensures myZoneLeaderId == LeaderSeenBy(newZones, newLeaders, nodeId)
      ensures myDetectionZoneMembers == MembersSeenBy(newZones, nodeId)
      ensures detectionZones == Table(newZones, newLeaders)
    {
      detectionZones := map[];
      myDetectionZoneMembers := [];
      myZoneLeaderId := 0;
      for i := 0 to |newZones|
        invariant detectionZones == Table(newZones[..i], newLeaders[..i])
        invariant myZoneLeaderId == LeaderSeenBy(newZones[..i], newLeaders[..i], nodeId)
        invariant myDetectionZoneMembers == MembersSeenBy(newZones[..i], nodeId)
      {
        var zone, leader := newZones[i], newLeaders[i];
        assert newZones[..i + 1][..i] == newZones[..i] && newLeaders[..i + 1][..i] == newLeaders[..i];
        MyZoneInRange(newZones[..i], nodeId);
        if zone != [] {
          detectionZones := detectionZones[leader := zone];
          if nodeId in zone {
            myZoneLeaderId := leader;
            myDetectionZoneMembers := zone;
          }
        }
      }
      assert newZones[..|newZones|] == newZones;
      TablePrefix(newZones, newLeaders);
      MyZoneInRange(newZones, nodeId);
    }

    method IsZoneLeader() returns (leads: bool)
      ensures leads <==> nodeId == myZoneLeaderId
    {
      leads := nodeId == myZoneLeaderId;
    }
  }

  lemma {:induction false} MyZoneInRange(zones: seq<seq<NodeId>>, node: NodeId)
    ensures MyZone(zones, node).Some? ==>
      MyZone(zones, node).value < |zones| && node in zones[MyZone(zones, node).value]
  {
    if zones != [] { MyZoneInRange(zones[..|zones| - 1], node); }
  }

  lemma TablePrefix(zones: seq<seq<NodeId>>, leaders: seq<NodeId>)
    requires |leaders| >= |zones|
    ensures Table(zones, leaders[..|zones|]) == Table(zones, leaders)
  {
    if zones != [] {
      assert leaders[..|zones|][..|zones| - 1] == leaders[..|zones| - 1];
    }
  }

  /** The last non-empty zone that `leader` leads. */
  ghost predicate LastUnder(zones: seq<seq<NodeId>>, leaders: seq<NodeId>, leader: NodeId, i: int)
    requires |leaders| >= |zones|
  {
    && 0 <= i < |zones| && zones[i] != [] && leaders[i] == leader
    && forall k :: i < k < |zones| ==> zones[k] == [] || leaders[k] != leader
  }

  /** Whatever the zones are, the table has under each leader the last non-empty zone that it leads. */
  lemma {:induction false} TableHasTheLast(zones: seq<seq<NodeId>>, leaders: seq<NodeId>, leader: NodeId)
    returns (i: int)
    requires |leaders| >= |zones|
    ensures if leader in Table(zones, leaders)
      then LastUnder(zones, leaders, leader, i) && Table(zones, leaders)[leader] == zones[i]
      else forall k :: 0 <= k < |zones| ==> zones[k] == [] || leaders[k] != leader
  {
    i := |zones| - 1;
    if zones != [] && (zones[i] == [] || leaders[i] != leader) {
      var n := i;
      i := TableHasTheLast(zones[..n], leaders[..n], leader);
      assert forall k :: 0 <= k < n ==> zones[..n][k] == zones[k] && leaders[..n][k] == leaders[k];
    }
  }

  /** With zones that are disjoint and led by their least members, every zone is in the table under its leader,
      and nothing else is. */
  lemma {:induction false} TableIsComplete(zones: seq<seq<NodeId>>, leaders: seq<NodeId>)
    requires TarjanModel.Disjoint(zones) && LedByLeast(zones, leaders)
    ensures forall i :: 0 <= i < |zones| ==>
      leaders[i] in Table(zones, leaders) && Table(zones, leaders)[leaders[i]] == zones[i]
    ensures forall n :: n in Table(zones, leaders) ==> n in leaders
  {
    if zones != [] {
      var n := |zones| - 1;
      TableIsComplete(zones[..n], leaders[..n]);
      forall i | 0 <= i < n ensures leaders[i] != leaders[n] {
        assert leaders[i] in zones[i] && leaders[n] in zones[n];
      }
      forall i | 0 <= i < n
        ensures leaders[i] in Table(zones, leaders) && Table(zones, leaders)[leaders[i]] == zones[i]
      {
        assert leaders[..n][i] == leaders[i] && zones[..n][i] == zones[i];
      }
      assert leaders == leaders[..n] + [leaders[n]];
    }
  }
}
