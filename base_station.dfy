/**
 * The base station that ties the receiver to the caster: start-up order,
 * the RTCM gate (validate, broadcast, count) and its statistics.
 */
module BaseStation {
  import opened Wrappers
  import opened Bytes
  import Rtcm
  import GpsSerial
  import Ntrip

  /** The stats dict: rtcm_messages, bytes_broadcast and start_time (a number supplied by the caller). */
  datatype Stats = Stats(rtcmMessages: nat, bytesBroadcast: nat, startTime: Option<int>)

  const InitialStats: Stats := Stats(0, 0, None)

  /** What _handle_rtcm_data does to the statistics for one frame. */
  function HandleStep(stats: Stats, data: seq<Byte>, hasServer: bool): Stats {
    if Rtcm.ValidateMessage(data).valid && hasServer
    then stats.(rtcmMessages := stats.rtcmMessages + 1, bytesBroadcast := stats.bytesBroadcast + |data|)
    else stats
  }

  /** The statistics after the frames, handled one after the other. */
  function HandleAll(stats: Stats, frames: seq<seq<Byte>>, hasServer: bool): Stats
    decreases |frames|
  {
    if frames == [] then stats
    else HandleStep(HandleAll(stats, frames[..|frames| - 1], hasServer), frames[|frames| - 1], hasServer)
  }

  /** The total length of the frames. */
  function ByteCount(frames: seq<seq<Byte>>): nat
    decreases |frames|
  {
    if frames == [] then 0 else ByteCount(frames[..|frames| - 1]) + |frames[|frames| - 1]|
  }

  lemma ByteCountSnoc(frames: seq<seq<Byte>>, f: seq<Byte>)
    ensures ByteCount(frames + [f]) == ByteCount(frames) + |f|
  {
    assert (frames + [f])[..|frames|] == frames;
  }

  /**
   * With a caster attached, the counters grow by exactly the number and
   * the total length of the frames the RTCM validator accepts; the start
   * time is never touched.
   */
  lemma {:induction false} HandleAllCounts(stats: Stats, frames: seq<seq<Byte>>)
    ensures var valid := Rtcm.ValidFrames(frames);
      HandleAll(stats, frames, true)
      == stats.(rtcmMessages := stats.rtcmMessages + |valid|, bytesBroadcast := stats.bytesBroadcast + ByteCount(valid))
    decreases |frames|
  {
    if frames != [] {
      var front, last := frames[..|frames| - 1], frames[|frames| - 1];
      HandleAllCounts(stats, front);
      assert frames == front + [last];
      Rtcm.ValidFramesSnoc(front, last);
      if Rtcm.ValidateMessage(last).valid {
        ByteCountSnoc(Rtcm.ValidFrames(front), last);
      } else {
        assert Rtcm.ValidFrames(front) + [] == Rtcm.ValidFrames(front);
      }
    }
  }

  /** Without a caster nothing is counted, whatever arrives. */
  lemma {:induction false} HandleAllWithoutServer(stats: Stats, frames: seq<seq<Byte>>)
    ensures HandleAll(stats, frames, false) == stats
    decreases |frames|
  {
    if frames != [] {
      HandleAllWithoutServer(stats, frames[..|frames| - 1]);
    }
  }

  /** The counters never decrease over any sequence of frames. */
  lemma {:induction false} HandleAllMonotone(stats: Stats, frames: seq<seq<Byte>>, hasServer: bool)
    ensures var r := HandleAll(stats, frames, hasServer);
      r.rtcmMessages >= stats.rtcmMessages && r.bytesBroadcast >= stats.bytesBroadcast
      && r.startTime == stats.startTime
    decreases |frames|
  {
    if frames != [] {
      HandleAllMonotone(stats, frames[..|frames| - 1], hasServer);
    }
  }

  /** The configuration start reads; coordinates are given as the text each command or table line carries. */
  datatype Config = Config(
    host: string, port: nat,
    authEnabled: bool, username: string, password: string,
    mountpoint: string, identifier: string, format: string, formatDetails: string,
    carrier: string, navSystem: string, network: string, country: string,
    latitude: string, longitude: string, altitude: string,
    tableLatitude: string, tableLongitude: string,
    rtcmMessages: seq<int>)

  /** The record add_mountpoint stores when called from start after the authentication setting. */
  function MountpointOf(cfg: Config): Ntrip.Mountpoint {
    Ntrip.Mountpoint(
      if cfg.identifier == "" then cfg.mountpoint else cfg.identifier, cfg.format, cfg.formatDetails,
      cfg.carrier, cfg.navSystem, cfg.network, cfg.country, cfg.tableLatitude, cfg.tableLongitude,
      "1", "0", "LC29H", "none", if cfg.authEnabled then "B" else "N", "N", "9600")
  }

  /** The commands start sends the receiver when it opens. */
  function StartCommands(cfg: Config): seq<string> {
    [GpsSerial.BaseModeCommand(), GpsSerial.Command(GpsSerial.PositionBody(cfg.latitude, cfg.longitude, cfg.altitude))]
    + GpsSerial.RtcmOutputCommands(cfg.rtcmMessages)
  }

  /** The receiver of start: connected (when the port opens), configured in base mode, RTCM output enabled. */
  method NewReceiver(cfg: Config, opens: bool) returns (g: GpsSerial.Lc29hSerial)
    ensures fresh(g) && g.isOpen == opens && g.hasRtcmCallback == opens
    ensures g.sent == (if opens then StartCommands(cfg) else [])
  {
    g := new GpsSerial.Lc29hSerial(opens);
    if opens {
      g.ConfigureBaseMode(cfg.latitude, cfg.longitude, cfg.altitude);
      ghost var configured := g.sent;
      assert configured == [] + StartCommands(cfg)[..2];
      g.EnableRtcmOutput(Some(cfg.rtcmMessages));
      assert g.sent == configured + GpsSerial.RtcmOutputCommands(cfg.rtcmMessages);
      g.SetRtcmCallback();
    }
  }

  /** The caster of start before it listens: authentication first, then the one mountpoint. */
  method NewCaster(cfg: Config) returns (n: Ntrip.Server)
    ensures fresh(n) && n.Valid() && !n.running && n.clients == []
    ensures n.host == cfg.host && n.port == cfg.port && n.requireAuth == cfg.authEnabled
    ensures n.credentials == (if cfg.authEnabled then map[cfg.username := cfg.password] else map[])
    ensures n.names == [cfg.mountpoint] && n.mountpoints == map[cfg.mountpoint := MountpointOf(cfg)]
  {
    n := new Ntrip.Server(cfg.host, cfg.port);
    if cfg.authEnabled {
      n.SetAuthentication(cfg.username, cfg.password);
    }
    n.AddMountpoint(cfg.mountpoint, cfg.identifier, cfg.format, cfg.formatDetails, cfg.carrier,
                    cfg.navSystem, cfg.network, cfg.country, cfg.tableLatitude, cfg.tableLongitude);
  }

  /** RTKBaseStation: the receiver, the caster and the statistics. */
  class Station {
    var gps: GpsSerial.Lc29hSerial?
    var ntrip: Ntrip.Server?
    var running: bool
    var stats: Stats

    ghost predicate Valid()
      reads this, ntrip
    {
      ntrip != null ==> ntrip.Valid()
    }

    constructor ()
      ensures Valid() && gps == null && ntrip == null && !running && stats == InitialStats
    {
      gps, ntrip, running, stats := null, null, false, InitialStats;
    }

    /**
     * _handle_rtcm_data: a frame the validator accepts is broadcast to
     * every client (ok[k] says whether the k-th send succeeds) and counted,
     * if a caster is attached; anything else changes nothing.
     */
    method HandleRtcmData(data: seq<Byte>, ok: seq<bool>)
      requires Valid() && (ntrip != null ==> |ok| == |ntrip.clients|)
      modifies this, ntrip, if ntrip == null then [] else ntrip.clients
      ensures Valid() && stats == HandleStep(old(stats), data, old(ntrip) != null)
      ensures ntrip == old(ntrip) && gps == old(gps) && running == old(running)
      ensures ntrip != null && Rtcm.ValidateMessage(data).valid ==> (
        && ntrip.clients == Ntrip.Survivors(old(ntrip.clients), None, ok)
        && (forall k :: 0 <= k < |old(ntrip.clients)| ==>
          old(ntrip.clients)[k].bytesSent == old(ntrip.clients[k].bytesSent) + (if ok[k] then |data| else 0))
        && (forall k :: 0 <= k < |old(ntrip.clients)| ==>
          old(ntrip.clients)[k].closed == (old(ntrip.clients[k].closed) || Ntrip.Evicted(None, old(ntrip.clients)[k], ok[k]))))
      ensures ntrip != null && !Rtcm.ValidateMessage(data).valid ==> (
        && ntrip.clients == old(ntrip.clients)
        && (forall k :: 0 <= k < |ntrip.clients| ==>
          ntrip.clients[k].bytesSent == old(ntrip.clients[k].bytesSent)
          && ntrip.clients[k].closed == old(ntrip.clients[k].closed)))
      ensures ntrip != null ==> (
        && ntrip.running == old(ntrip.running) && ntrip.names == old(ntrip.names)
        && ntrip.mountpoints == old(ntrip.mountpoints) && ntrip.requireAuth == old(ntrip.requireAuth)
        && ntrip.credentials == old(ntrip.credentials))
    {
      var v := Rtcm.ValidateMessage(data);
      if v.valid && ntrip != null {
        assert data != [];
        ntrip.BroadcastRtcm(data, None, ok);
        stats := stats.(rtcmMessages := stats.rtcmMessages + 1, bytesBroadcast := stats.bytesBroadcast + |data|);
      }
    }

    /**
     * start: gpsOpens and serverBinds say whether the serial port opens
     * and the listening socket binds; now is the time recorded on success.
     * Authentication is configured before the mountpoint is added, so the
     * mountpoint's flag is "B" exactly when authentication is enabled.
     */
    method Start(cfg: Config, gpsOpens: bool, serverBinds: bool, now: int) returns (ok: bool)
      requires Valid()
      modifies this
      ensures Valid() && ok == (gpsOpens && serverBinds)
      ensures gps != null && fresh(gps) && gps.isOpen == ok && gps.hasRtcmCallback == gpsOpens
      ensures gps.sent == (if gpsOpens then StartCommands(cfg) else [])
      ensures !gpsOpens ==> ntrip == old(ntrip)
      ensures gpsOpens ==> (
        && ntrip != null && fresh(ntrip) && ntrip.clients == [] && ntrip.running == serverBinds
        && ntrip.host == cfg.host && ntrip.port == cfg.port
        && ntrip.requireAuth == cfg.authEnabled
        && ntrip.credentials == (if cfg.authEnabled then map[cfg.username := cfg.password] else map[])
        && ntrip.names == [cfg.mountpoint] && ntrip.mountpoints == map[cfg.mountpoint := MountpointOf(cfg)]
        && (ntrip.mountpoints[cfg.mountpoint].authentication == "B" <==> cfg.authEnabled))
      ensures running == (ok || old(running))
      ensures stats == (if ok then old(stats).(startTime := Some(now)) else old(stats))
    {
      var g := NewReceiver(cfg, gpsOpens);
      gps := g;
      if !gpsOpens {
        return false;
      }
      var n := NewCaster(cfg);
      ntrip := n;
      var started := n.Start(serverBinds);
      if !started {
        g.Disconnect();
        return false;
      }
      running := true;
      stats := stats.(startTime := Some(now));
      ok := true;
    }

    /** stop: the caster is stopped (its clients closed and dropped) and the receiver disconnected. */
    method Stop()
      requires Valid()
      modifies this, ntrip, gps, if ntrip == null then [] else ntrip.clients
      ensures Valid() && !running && stats == old(stats) && ntrip == old(ntrip) && gps == old(gps)
      ensures ntrip != null ==> ntrip.clients == [] && !ntrip.running
      ensures ntrip != null ==> forall k :: 0 <= k < |old(ntrip.clients)| ==> old(ntrip.clients)[k].closed
      ensures ntrip != null ==> (
        && ntrip.names == old(ntrip.names) && ntrip.mountpoints == old(ntrip.mountpoints)
        && ntrip.requireAuth == old(ntrip.requireAuth) && ntrip.credentials == old(ntrip.credentials))
      ensures gps != null ==> !gps.isOpen && gps.sent == old(gps.sent) && gps.View() == old(gps.View())
    {
      running := false;
      if ntrip != null {
        ntrip.Stop();
      }
      if gps != null {
        gps.Disconnect();
      }
    }
  }
}
