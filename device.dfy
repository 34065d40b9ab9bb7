/** The reference-counted graphics device shared by every user of GraphicsDeviceService.

    The source keeps its whole state in static fields (the singleton instance, the
    reference count, the device, the presentation parameters and the profile), so one
    object of class `GraphicsDeviceService` below stands for those statics, and an
    instance of the source class is identified by a number. The device is a token with
    an id, a profile, a back-buffer size and a disposed flag. Raised events and device
    lifetime steps are recorded as notices. `Interlocked.Increment` and
    `Interlocked.Decrement` are single sequential steps.

    The step functions on `Registry` (AddRefStep, ReleaseStep, ResetStep,
    SetProfileStep) specify the methods of the class; the lemmas state what holds of
    them and of any sequence of calls. */
module DeviceService {
  import opened Assets

  /** XNA's GraphicsProfile; Reach is its default value. */
  datatype GraphicsProfile = Reach | HiDef

  /** The part of PresentationParameters the service changes. */
  datatype Parameters = Parameters(backBufferWidth: int, backBufferHeight: int)

  /** A GraphicsDevice: which one it is, the profile it was created with, its back-buffer
      size and whether it has been disposed. */
  datatype Device = Device(id: nat, profile: GraphicsProfile, width: int, height: int, disposed: bool)

  /** Observable steps: device creation, disposal and reset, and the events raised. */
  datatype Notice =
    | Created(device: nat)
    | Disposed(device: nat)
    | ResetTo(device: nat, width: int, height: int)
    | DisposingRaised(instance: nat)
    | ResettingRaised(instance: nat)
    | ResetRaised(instance: nat)

  /** The static fields of GraphicsDeviceService, with `instances` and `devices` counting
      the instances and devices created so far (their ids are 0, 1, ...). */
  datatype Registry = Registry(
    referenceCount: int,
    singletonInstance: Option<nat>,
    instances: nat,
    graphicsDevice: Option<Device>,
    parameters: Option<Parameters>,
    graphicsProfile: GraphicsProfile,
    devices: nat,
    notices: seq<Notice>)

  /** The statics before the first call: everything null, the count 0, the default profile. */
  const Initial := Registry(0, None, 0, None, None, Reach, 0, [])

  /** Math.Max */
  function Max(a: int, b: int): (r: int)
    ensures r >= a && r >= b && (r == a || r == b)
  {
    if a >= b then a else b
  }

  /** What holds between calls: a device exists exactly while someone holds a reference,
      it is never a disposed one, it has the stored profile and the stored back-buffer
      size, and it is the last device created; the parameters exist once an instance
      has been constructed and are at least 1 by 1. */
  predicate Consistent(s: Registry) {
    && (s.graphicsDevice.Some? <==> s.referenceCount >= 1)
    && (s.singletonInstance.Some? <==> s.instances > 0)
    && (s.singletonInstance.Some? ==> s.singletonInstance.value + 1 == s.instances)
    && (s.parameters.Some? <==> s.instances > 0)
    && (s.parameters.Some? ==> s.parameters.value.backBufferWidth >= 1 && s.parameters.value.backBufferHeight >= 1)
    && (s.graphicsDevice.Some? ==>
          && s.parameters.Some?
          && !s.graphicsDevice.value.disposed
          && s.graphicsDevice.value.profile == s.graphicsProfile
          && s.graphicsDevice.value.id + 1 == s.devices
          && s.graphicsDevice.value.width == s.parameters.value.backBufferWidth
          && s.graphicsDevice.value.height == s.parameters.value.backBufferHeight)
  }

  lemma InitialIsConsistent()
    ensures Consistent(Initial)
  {
  }

  // ---------------------------------------------------------------------------
  // One call each
  // ---------------------------------------------------------------------------

  /** `new GraphicsDevice(adapter, graphicsProfile, parameters)`: a device that did not
      exist before, with the stored profile and the stored parameters. */
  function CreateDevice(s: Registry): (r: Registry)
    requires s.parameters.Some?
    ensures r.graphicsDevice.Some? && r.graphicsDevice.value.id == s.devices && r.devices == s.devices + 1
    ensures r.graphicsDevice.value.profile == s.graphicsProfile && !r.graphicsDevice.value.disposed
    ensures r.graphicsDevice.value.width == s.parameters.value.backBufferWidth
    ensures r.graphicsDevice.value.height == s.parameters.value.backBufferHeight
    ensures r.notices == s.notices + [Created(s.devices)]
    ensures r.(graphicsDevice := s.graphicsDevice, devices := s.devices, notices := s.notices) == s
  {
    var p := s.parameters.value;
    s.(graphicsDevice := Some(Device(s.devices, s.graphicsProfile, p.backBufferWidth, p.backBufferHeight, false)),
       devices := s.devices + 1,
       notices := s.notices + [Created(s.devices)])
  }

  /** The private constructor: fresh parameters of the requested size, each dimension
      raised to 1 when it is below; a new device with the stored profile; and a new
      instance, whose id is the old `instances`. */
  function ConstructStep(s: Registry, width: int, height: int): (r: Registry)
    ensures r.parameters.Some? && r.parameters.value.backBufferWidth >= 1 && r.parameters.value.backBufferHeight >= 1
    ensures r.parameters.value.backBufferWidth >= width && r.parameters.value.backBufferHeight >= height
    ensures r.parameters.value.backBufferWidth == (if width >= 1 then width else 1)
    ensures r.parameters.value.backBufferHeight == (if height >= 1 then height else 1)
    ensures r.graphicsDevice.Some? && r.graphicsDevice.value.id == s.devices && r.devices == s.devices + 1
    ensures r.graphicsDevice.value.profile == s.graphicsProfile && r.graphicsProfile == s.graphicsProfile
    ensures r.instances == s.instances + 1
    ensures r.notices == s.notices + [Created(s.devices)]
    ensures r.referenceCount == s.referenceCount && r.singletonInstance == s.singletonInstance
  {
    var s1 := s.(parameters := Some(Parameters(Max(width, 1), Max(height, 1))));
    CreateDevice(s1).(instances := s.instances + 1)
  }

  /** AddRef: the count goes up by exactly one; only when it becomes 1 is a new instance
      (with a new device) constructed, otherwise nothing else changes. The result is the
      singleton instance. */
  function AddRefStep(s: Registry, width: int, height: int): (r: (Registry, Option<nat>))
    ensures r.0.referenceCount == s.referenceCount + 1
    ensures r.1 == r.0.singletonInstance
    ensures s.referenceCount + 1 == 1 ==>
      r.0 == ConstructStep(s.(referenceCount := 1), width, height).(singletonInstance := Some(s.instances))
    ensures s.referenceCount + 1 != 1 ==> r.0 == s.(referenceCount := s.referenceCount + 1)
  {
    var s1 := s.(referenceCount := s.referenceCount + 1);
    var s2 := if s1.referenceCount == 1
      then ConstructStep(s1, width, height).(singletonInstance := Some(s1.instances))
      else s1;
    (s2, s2.singletonInstance)
  }

  /** Release, called on instance `self`: the count goes down by exactly one. When it
      reaches 0 the device reference is cleared, after DeviceDisposing has been raised
      and the device disposed when `disposing` holds. When it does not reach 0 nothing
      else changes. There is no guard: a release at 0 takes the count to -1. */
  function ReleaseStep(s: Registry, self: nat, disposing: bool): (r: Registry)
    ensures r.referenceCount == s.referenceCount - 1
    ensures s.referenceCount - 1 != 0 ==> r == s.(referenceCount := s.referenceCount - 1)
    ensures s.referenceCount - 1 == 0 ==> r.graphicsDevice.None?
    ensures s.referenceCount - 1 == 0 && !disposing ==> r == s.(referenceCount := 0, graphicsDevice := None)
    ensures s.referenceCount - 1 == 0 && disposing && s.graphicsDevice.Some? ==>
      r.notices == s.notices + [DisposingRaised(self), Disposed(s.graphicsDevice.value.id)]
    ensures r.(referenceCount := s.referenceCount, graphicsDevice := s.graphicsDevice, notices := s.notices) == s
  {
    var s1 := s.(referenceCount := s.referenceCount - 1);
    if s1.referenceCount != 0 then s1
    else if !disposing then s1.(graphicsDevice := None)
    else
      var s2 := s1.(notices := s1.notices + [DisposingRaised(self)]);
      match s2.graphicsDevice
      case None => s2
      case Some(d) => s2.(graphicsDevice := None, notices := s2.notices + [Disposed(d.id)])
  }

  /** ResetDevice, called on instance `self`: DeviceResetting is raised, the stored size
      becomes the larger of the stored and the requested size in each dimension, the
      device is reset to it and DeviceReset is raised. The second half is false when a
      null reference is hit: no parameters yet, or no device (after the parameters have
      grown). */
  function ResetStep(s: Registry, self: nat, width: int, height: int): (r: (Registry, bool))
    ensures r.1 <==> s.parameters.Some? && s.graphicsDevice.Some?
    ensures |r.0.notices| > |s.notices| && r.0.notices[|s.notices|] == ResettingRaised(self)
    ensures s.parameters.Some? ==>
      && r.0.parameters.Some?
      && r.0.parameters.value.backBufferWidth == Max(s.parameters.value.backBufferWidth, width)
      && r.0.parameters.value.backBufferHeight == Max(s.parameters.value.backBufferHeight, height)
    ensures s.parameters.None? ==> r.0.parameters.None?
    ensures r.1 ==>
      && r.0.graphicsDevice.Some? && r.0.graphicsDevice.value.id == s.graphicsDevice.value.id
      && r.0.graphicsDevice.value.width == r.0.parameters.value.backBufferWidth
      && r.0.graphicsDevice.value.height == r.0.parameters.value.backBufferHeight
      && r.0.notices[|r.0.notices| - 1] == ResetRaised(self)
    ensures r.0.graphicsDevice.Some? <==> s.graphicsDevice.Some?
    ensures r.0.(parameters := s.parameters, graphicsDevice := s.graphicsDevice, notices := s.notices) == s
  {
    var s1 := s.(notices := s.notices + [ResettingRaised(self)]);
    match s1.parameters
    case None => (s1, false)
    case Some(p) =>
      var grown := Parameters(Max(p.backBufferWidth, width), Max(p.backBufferHeight, height));
      var s2 := s1.(parameters := Some(grown));
      match s2.graphicsDevice
      case None => (s2, false)
      case Some(d) =>
        (s2.(graphicsDevice := Some(d.(width := grown.backBufferWidth, height := grown.backBufferHeight)),
             notices := s2.notices + [ResetTo(d.id, grown.backBufferWidth, grown.backBufferHeight), ResetRaised(self)]),
         true)
  }

  /** The GraphicsProfile setter. Setting the stored value changes nothing. A new value
      is always stored; the device is replaced only when there is one and its profile
      differs from the new value: the old one is disposed unless it already was, and
      the new one gets the new profile and the stored parameters. Without parameters
      the constructor of the new device throws and the old, disposed, device stays. */
  function SetProfileStep(s: Registry, value: GraphicsProfile): (r: Registry)
    ensures r.graphicsProfile == value
    ensures s.graphicsProfile == value ==> r == s
    ensures r.referenceCount == s.referenceCount && r.parameters == s.parameters
    ensures r.singletonInstance == s.singletonInstance && r.instances == s.instances
    ensures r.graphicsDevice.Some? <==> s.graphicsDevice.Some?
    ensures r.devices > s.devices ==>
      && s.graphicsProfile != value && s.graphicsDevice.Some? && s.graphicsDevice.value.profile != value
      && r.devices == s.devices + 1 && r.graphicsDevice.value.id == s.devices
      && r.graphicsDevice.value.profile == value
  {
    if s.graphicsProfile == value then s
    else
      var s1 := s.(graphicsProfile := value);
      match s1.graphicsDevice
      case None => s1
      case Some(d) =>
        if d.profile == value then s1
        else
          var s2 := if !d.disposed then s1.(notices := s1.notices + [Disposed(d.id)]) else s1;
          if s2.parameters.None? then s2.(graphicsDevice := Some(d.(disposed := true)))
          else CreateDevice(s2)
  }

  // ---------------------------------------------------------------------------
  // Sequences of calls
  // ---------------------------------------------------------------------------

  /** One call on the service; `self` names the instance a call is made on. */
  datatype Call =
    | AddRef(width: int, height: int)
    | Release(self: nat, disposing: bool)
    | ResetDevice(self: nat, width: int, height: int)
    | SetGraphicsProfile(value: GraphicsProfile)

  function Step(s: Registry, c: Call): Registry {
    match c
    case AddRef(w, h) => AddRefStep(s, w, h).0
    case Release(self, disposing) => ReleaseStep(s, self, disposing)
    case ResetDevice(self, w, h) => ResetStep(s, self, w, h).0
    case SetGraphicsProfile(v) => SetProfileStep(s, v)
  }

  /** The state after the calls `calls`, in order. */
  function Run(s: Registry, calls: seq<Call>): Registry
    decreases |calls|
  {
    if calls == [] then s else Step(Run(s, calls[..|calls| - 1]), calls[|calls| - 1])
  }

  /** How many of `calls` are AddRef and how many Release. */
  function AddRefs(calls: seq<Call>): (r: nat)
    ensures r <= |calls|
    decreases |calls|
  {
    if calls == [] then 0 else AddRefs(calls[..|calls| - 1]) + (if calls[|calls| - 1].AddRef? then 1 else 0)
  }

  function Releases(calls: seq<Call>): (r: nat)
    ensures r <= |calls|
    decreases |calls|
  {
    if calls == [] then 0 else Releases(calls[..|calls| - 1]) + (if calls[|calls| - 1].Release? then 1 else 0)
  }

  // ---------------------------------------------------------------------------
  // Properties
  // ---------------------------------------------------------------------------

  /** Every call keeps the service consistent. */
  lemma StepPreservesConsistent(s: Registry, c: Call)
    requires Consistent(s)
    ensures Consistent(Step(s, c))
  {
    match c
    case AddRef(w, h) =>
    case Release(self, disposing) =>
    case ResetDevice(self, w, h) =>
    case SetGraphicsProfile(v) =>
  }

  lemma {:induction false} RunPreservesConsistent(s: Registry, calls: seq<Call>)
    requires Consistent(s)
    ensures Consistent(Run(s, calls))
    decreases |calls|
  {
    if calls != [] {
      RunPreservesConsistent(s, calls[..|calls| - 1]);
      StepPreservesConsistent(Run(s, calls[..|calls| - 1]), calls[|calls| - 1]);
    }
  }

  /** The reference count is the starting count plus the AddRef calls minus the Release
      calls, whatever else happens in between. */
  lemma {:induction false} CountTracksCalls(s: Registry, calls: seq<Call>)
    ensures Run(s, calls).referenceCount == s.referenceCount + AddRefs(calls) - Releases(calls)
    decreases |calls|
  {
    if calls != [] {
      CountTracksCalls(s, calls[..|calls| - 1]);
    }
  }

  /** `n` AddRef calls followed by `n` Release calls leave the count where it was. */
  lemma {:induction false} BalancedCallsRestoreCount(s: Registry, adds: seq<Call>, releases: seq<Call>)
    requires |adds| == |releases|
    requires forall i :: 0 <= i < |adds| ==> adds[i].AddRef?
    requires forall i :: 0 <= i < |releases| ==> releases[i].Release?
    ensures Run(s, adds + releases).referenceCount == s.referenceCount
  {
    CountTracksCalls(s, adds + releases);
    AllAddRefs(adds);
    AllReleases(releases);
    CountsSplit(adds, releases);
  }

  lemma {:induction false} AllAddRefs(calls: seq<Call>)
    requires forall i :: 0 <= i < |calls| ==> calls[i].AddRef?
    ensures AddRefs(calls) == |calls| && Releases(calls) == 0
    decreases |calls|
  {
    if calls != [] {
      AllAddRefs(calls[..|calls| - 1]);
    }
  }

  lemma {:induction false} AllReleases(calls: seq<Call>)
    requires forall i :: 0 <= i < |calls| ==> calls[i].Release?
    ensures Releases(calls) == |calls| && AddRefs(calls) == 0
    decreases |calls|
  {
    if calls != [] {
      AllReleases(calls[..|calls| - 1]);
    }
  }

  lemma {:induction false} CountsSplit(a: seq<Call>, b: seq<Call>)
    ensures AddRefs(a + b) == AddRefs(a) + AddRefs(b)
    ensures Releases(a + b) == Releases(a) + Releases(b)
    decreases |b|
  {
    if b == [] {
      assert a + b == a;
    } else {
      assert (a + b)[..|a + b| - 1] == a + b[..|b| - 1];
      CountsSplit(a, b[..|b| - 1]);
    }
  }

  /** Demand-grow: between constructions the stored back-buffer size never shrinks. A run
      in which every AddRef finds the count other than 0, and so constructs nothing,
      ends with a size at least as large in each dimension. */
  lemma {:induction false} SizeNeverShrinksWithoutAddRef(s: Registry, calls: seq<Call>)
    requires s.parameters.Some?
    requires forall i :: 0 <= i < |calls| && calls[i].AddRef? ==> Run(s, calls[..i]).referenceCount != 0
    ensures Run(s, calls).parameters.Some?
    ensures Run(s, calls).parameters.value.backBufferWidth >= s.parameters.value.backBufferWidth
    ensures Run(s, calls).parameters.value.backBufferHeight >= s.parameters.value.backBufferHeight
    decreases |calls|
  {
    if calls != [] {
      var init := calls[..|calls| - 1];
      forall i | 0 <= i < |init| && init[i].AddRef?
        ensures Run(s, init[..i]).referenceCount != 0
      {
        assert init[..i] == calls[..i];
      }
      SizeNeverShrinksWithoutAddRef(s, init);
      assert calls[..|calls| - 1] == init;
    }
  }

  /** A reset to the requested size leaves the stored size at least that large. */
  lemma ResetCoversRequest(s: Registry, self: nat, width: int, height: int)
    requires s.parameters.Some?
    ensures var p := ResetStep(s, self, width, height).0.parameters.value;
      && p.backBufferWidth >= width && p.backBufferWidth >= s.parameters.value.backBufferWidth
      && p.backBufferHeight >= height && p.backBufferHeight >= s.parameters.value.backBufferHeight
  {
  }

  /** ...but an AddRef that takes the count from 0 to 1 rebuilds the parameters from the
      requested size, so the stored size can shrink across a release-and-reacquire. */
  lemma ReacquireCanShrink(s: Registry)
    requires s.referenceCount == 0 && s.parameters == Some(Parameters(800, 600))
    ensures AddRefStep(s, 10, 10).0.parameters == Some(Parameters(10, 10))
  {
  }

  /** While someone holds a reference, AddRef hands back the existing singleton and
      constructs nothing. */
  lemma AddRefSharesSingleton(s: Registry, width: int, height: int)
    requires Consistent(s) && s.referenceCount >= 1
    ensures var r := AddRefStep(s, width, height);
      && r.1 == s.singletonInstance && r.1.Some?
      && r.0.graphicsDevice == s.graphicsDevice && r.0.devices == s.devices
  {
  }

  /** With a consistent service, storing a different profile while a device exists
      always replaces it: the old one is disposed and the new one has the new profile
      and the stored back-buffer size. */
  lemma NewProfileRecreatesDevice(s: Registry, value: GraphicsProfile)
    requires Consistent(s) && s.graphicsDevice.Some? && s.graphicsProfile != value
    ensures var r := SetProfileStep(s, value);
      && r.devices == s.devices + 1
      && r.notices == s.notices + [Disposed(s.graphicsDevice.value.id), Created(s.devices)]
      && r.graphicsDevice.value.profile == value
      && r.graphicsDevice.value.width == s.parameters.value.backBufferWidth
      && r.graphicsDevice.value.height == s.parameters.value.backBufferHeight
  {
  }

  /** Setting the same profile twice creates at most one device: the second call finds
      the value already stored and does nothing. */
  lemma SameProfileTwice(s: Registry, value: GraphicsProfile)
    ensures SetProfileStep(SetProfileStep(s, value), value) == SetProfileStep(s, value)
    ensures SetProfileStep(SetProfileStep(s, value), value).devices <= s.devices + 1
  {
  }

  /** The last release of a consistent service with `disposing` raises DeviceDisposing
      and disposes the device it held, in that order; without `disposing` the device is
      dropped without being disposed. */
  lemma LastReleaseDisposes(s: Registry, self: nat, disposing: bool)
    requires Consistent(s) && s.referenceCount == 1
    ensures var r := ReleaseStep(s, self, disposing);
      && r.referenceCount == 0 && r.graphicsDevice.None?
      && r.notices == s.notices + (if disposing then [DisposingRaised(self), Disposed(s.graphicsDevice.value.id)] else [])
  {
  }

  // ---------------------------------------------------------------------------
  // The statics as mutable state
  // ---------------------------------------------------------------------------

  class GraphicsDeviceService {
    var referenceCount: int
    var singletonInstance: Option<nat>
    var instances: nat
    var graphicsDevice: Option<Device>
    var parameters: Option<Parameters>
    var graphicsProfile: GraphicsProfile
    var devices: nat
    var notices: seq<Notice>

    ghost function State(): Registry
      reads this
    {
      Registry(referenceCount, singletonInstance, instances, graphicsDevice, parameters,
               graphicsProfile, devices, notices)
    }

    ghost predicate Valid()
      reads this
    {
      Consistent(State())
    }

    /** The statics as the runtime initialises them. */
    constructor ()
      ensures State() == Initial && Valid()
    {
      referenceCount := 0;
      singletonInstance := None;
      instances := 0;
      graphicsDevice := None;
      parameters := None;
      graphicsProfile := Reach;
      devices := 0;
      notices := [];
    }

    method NewDevice()
      requires parameters.Some?
      modifies this
      ensures State() == CreateDevice(old(State()))
    {
      var p := parameters.value;
      graphicsDevice := Some(Device(devices, graphicsProfile, p.backBufferWidth, p.backBufferHeight, false));
      notices := notices + [Created(devices)];
      devices := devices + 1;
    }

    /** The private constructor GraphicsDeviceService(windowHandle, width, height). */
    method Construct(width: int, height: int) returns (instance: nat)
      modifies this
      ensures State() == ConstructStep(old(State()), width, height)
      ensures instance == old(instances)
    {
      parameters := Some(Parameters(Max(width, 1), Max(height, 1)));
      NewDevice();
      instance := instances;
      instances := instances + 1;
    }

    method AddRef(width: int, height: int) returns (instance: Option<nat>)
      modifies this
      ensures (State(), instance) == AddRefStep(old(State()), width, height)
      ensures old(Valid()) ==> Valid()
    {
      referenceCount := referenceCount + 1;
      if referenceCount == 1 {
        var created := Construct(width, height);
        singletonInstance := Some(created);
      }
      instance := singletonInstance;
      if old(Valid()) {
        StepPreservesConsistent(old(State()), Call.AddRef(width, height));
      }
    }

    method Release(self: nat, disposing: bool)
      modifies this
      ensures State() == ReleaseStep(old(State()), self, disposing)
      ensures old(Valid()) ==> Valid()
    {
      referenceCount := referenceCount - 1;
      if referenceCount == 0 {
        if disposing {
          notices := notices + [DisposingRaised(self)];
          if graphicsDevice.Some? {
            notices := notices + [Disposed(graphicsDevice.value.id)];
          }
        }
        graphicsDevice := None;
      }
      if old(Valid()) {
        StepPreservesConsistent(old(State()), Call.Release(self, disposing));
      }
    }

    /** ResetDevice; `ok` is false when the call throws NullReferenceException. */
    method ResetDevice(self: nat, width: int, height: int) returns (ok: bool)
      modifies this
      ensures (State(), ok) == ResetStep(old(State()), self, width, height)
      ensures old(Valid()) ==> Valid()
    {
      notices := notices + [ResettingRaised(self)];
      if parameters.None? {
        ok := false;
      } else {
        var p := parameters.value;
        parameters := Some(Parameters(Max(p.backBufferWidth, width), Max(p.backBufferHeight, height)));
        if graphicsDevice.None? {
          ok := false;
        } else {
          var d := graphicsDevice.value;
          var grown := parameters.value;
          graphicsDevice := Some(d.(width := grown.backBufferWidth, height := grown.backBufferHeight));
          notices := notices + [ResetTo(d.id, grown.backBufferWidth, grown.backBufferHeight), ResetRaised(self)];
          ok := true;
        }
      }
      if old(Valid()) {
        StepPreservesConsistent(old(State()), Call.ResetDevice(self, width, height));
      }
    }

    /** The static GraphicsProfile setter. */
    method SetGraphicsProfile(value: GraphicsProfile)
      modifies this
      ensures State() == SetProfileStep(old(State()), value)
      ensures old(Valid()) ==> Valid()
    {
      ghost var s0 := State();
      if graphicsProfile != value {
        graphicsProfile := value;
        if graphicsDevice.Some? && graphicsDevice.value.profile != value {
          var d := graphicsDevice.value;
          if !d.disposed {
            notices := notices + [Disposed(d.id)];
          }
          if parameters.None? {
            graphicsDevice := Some(d.(disposed := true));
          } else {
            NewDevice();
          }
        }
      }
      assert State() == SetProfileStep(s0, value);
      if Consistent(s0) {
        assert Step(s0, Call.SetGraphicsProfile(value)) == State();
        StepPreservesConsistent(s0, Call.SetGraphicsProfile(value));
      }
    }
  }
}
