/**
  The SD bus arbiter. The card is shared with the RT4K: the firmware may take
  it only after boot (10 s of uptime) and while the RT4K's chip-select sense
  pin reads High. A grab drives the bus switch Low and mounts the card; a
  soft release arms a 1000 ms timer instead of releasing, so a grab that
  follows within that time reuses the mounted card; the timer's expiry, or
  an instant release, unmounts the card and hands the bus back (switch High).

  The sense pin and the uptime clock are inputs (a sequence of samples taken
  by the polling loop), the outcome of SDCard.Mount is an input, and the
  timer's expiry is an explicit event.
 */
module SdManager {
  import opened Wrappers

  /** Delay, in milliseconds, between a soft release and the real one. */
  const SdReleaseTimeout := 1000
  /** Uptime, in microseconds, before which the card is never touched. */
  const Rt4kBoot := 10 * 1000 * 1000

  datatype PinValue = Low | High

  /** The release timer: not running, or due `dueMs` milliseconds after it was armed. */
  datatype ReleaseTimer = Disarmed | Armed(dueMs: nat)

  /** One reading of the clock and the sense pin by IsSdAvailable. */
  datatype Sample = Sample(uptime: nat, sense: PinValue)

  /**
    The arbiter's state: the fields of SdManager, the level driven on the
    switch pin (None until the pin is opened), the card's mount state, and
    counts of pin initialisations, mounts and unmounts.
   */
  datatype Arbiter = Arbiter(
    isSdGrabbed: bool,
    pinsReady: bool,
    timer: ReleaseTimer,
    switchLevel: Option<PinValue>,
    mounted: bool,
    switchInits: nat,
    mounts: nat,
    unmounts: nat)

  /** The state at construction: nothing grabbed, pins not opened, timer disarmed. */
  const Initial := Arbiter(false, false, Disarmed, None, false, 0, 0, 0)

  /** IsSdAvailable: boot is over and the RT4K is not using the card. */
  predicate IsSdAvailable(s: Sample)
  {
    s.uptime > Rt4kBoot && s.sense == High
  }

  /** The index of the first sample at which the card is free. */
  function FirstAvailable(polls: seq<Sample>): (k: nat)
    requires exists i | 0 <= i < |polls| :: IsSdAvailable(polls[i])
    ensures k < |polls| && IsSdAvailable(polls[k])
    ensures forall j | 0 <= j < k :: !IsSdAvailable(polls[j])
    decreases |polls|
  {
    if IsSdAvailable(polls[0]) then 0 else 1 + FirstAvailable(polls[1..])
  }

  /** The first grab opens the switch pin as an output; later ones leave it alone. No level is written. */
  function PinsInitialized(a: Arbiter): Arbiter
  {
    if a.pinsReady then a
    else a.(pinsReady := true, switchInits := a.switchInits + 1)
  }

  /**
    GrabSD: initialise the pins once, disarm the timer, and unless the card is
    still held from a soft release, drive the switch Low and mount the card.
    The card counts as grabbed even if the mount failed.
   */
  function Grab(a: Arbiter, mountSucceeds: bool): (b: Arbiter)
    ensures b.isSdGrabbed && b.pinsReady && b.timer == Disarmed
    ensures a.isSdGrabbed ==> b.mounts == a.mounts && b.switchLevel == a.switchLevel
  {
    var b := PinsInitialized(a).(timer := Disarmed);
    if b.isSdGrabbed then b
    else b.(switchLevel := Some(Low), mounts := b.mounts + 1, mounted := mountSucceeds, isSdGrabbed := true)
  }

  /** ReleaseCallback: mark released, disarm, unmount if mounted, switch High. */
  function Expire(a: Arbiter): (b: Arbiter)
    ensures !b.isSdGrabbed && !b.mounted && b.timer == Disarmed && b.switchLevel == Some(High)
  {
    a.(isSdGrabbed := false, timer := Disarmed,
       mounted := false, unmounts := if a.mounted then a.unmounts + 1 else a.unmounts,
       switchLevel := Some(High))
  }

  /** ReleaseSD: release at once, or arm the timer for 1000 ms. */
  function Release(a: Arbiter, instantRelease: bool): (b: Arbiter)
    ensures instantRelease ==> !b.isSdGrabbed && b.timer == Disarmed
    ensures !instantRelease ==> b.isSdGrabbed == a.isSdGrabbed && b.mounted == a.mounted && b.timer == Armed(1000)
  {
    if instantRelease then Expire(a) else a.(timer := Armed(SdReleaseTimeout))
  }

  /**
    The states the arbiter can reach: the card is mounted only while grabbed,
    the timer runs only while grabbed, a grabbed card has the switch Low, and
    the pins were opened exactly once if ever.
   */
  predicate Valid(a: Arbiter)
  {
    (a.mounted ==> a.isSdGrabbed)
    && (a.timer.Armed? ==> a.isSdGrabbed)
    && (a.isSdGrabbed ==> a.pinsReady && a.switchLevel == Some(Low))
    && a.switchInits == (if a.pinsReady then 1 else 0)
    && (a.switchLevel.Some? ==> a.pinsReady)
  }

  /** The arbiter state machine, with the fields the firmware updates in place. */
  class SdManager {
    var isSdGrabbed: bool
    var pinsReady: bool
    var releaseTimer: ReleaseTimer
    var switchLevel: Option<PinValue>
    var mounted: bool
    ghost var switchInits: nat
    ghost var mounts: nat
    ghost var unmounts: nat

    /** The fields as one value. */
    ghost function State(): Arbiter
      reads this
    {
      Arbiter(isSdGrabbed, pinsReady, releaseTimer, switchLevel, mounted, switchInits, mounts, unmounts)
    }

    constructor ()
      ensures State() == Initial
    {
      isSdGrabbed := false;
      pinsReady := false;
      releaseTimer := Disarmed;
      switchLevel := None;
      mounted := false;
      switchInits := 0;
      mounts := 0;
      unmounts := 0;
    }

    /** InitSdSwitch: open the switch pin as an output; it writes no level. */
    method InitSdSwitch()
      modifies this
      ensures State() == old(State()).(switchInits := old(switchInits) + 1)
    {
      switchInits := switchInits + 1;
    }

    /**
      GrabSD. `polls` are the readings the wait loop takes, the first before
      the loop; `mountSucceeds` is whether SDCard.Mount returns normally.
      It returns how many readings were taken (none on a soft grab).
     */
    method GrabSD(polls: seq<Sample>, mountSucceeds: bool) returns (taken: nat)
      requires isSdGrabbed || exists i | 0 <= i < |polls| :: IsSdAvailable(polls[i])
      modifies this
      ensures State() == Grab(old(State()), mountSucceeds)
      ensures old(isSdGrabbed) ==> taken == 0
      ensures !old(isSdGrabbed) ==> taken == FirstAvailable(polls) + 1
    {
      if !pinsReady {
        pinsReady := true;
        InitSdSwitch();
      }
      releaseTimer := Disarmed;
      if isSdGrabbed {
        taken := 0;
      } else {
        var k := 0;
        var sdAvailable := IsSdAvailable(polls[k]);
        while !sdAvailable
          invariant 0 <= k <= FirstAvailable(polls)
          invariant sdAvailable == IsSdAvailable(polls[k])
          decreases FirstAvailable(polls) - k
        {
          k := k + 1;
          sdAvailable := IsSdAvailable(polls[k]);
        }
        switchLevel := Some(Low);
        mounts := mounts + 1;
        mounted := mountSucceeds;
        isSdGrabbed := true;
        taken := k + 1;
      }
    }

    /** ReleaseCallback, run by the timer or by an instant release; the switch pin must be open. */
    method ReleaseCallback()
      requires pinsReady
      modifies this
      ensures State() == Expire(old(State()))
    {
      isSdGrabbed := false;
      releaseTimer := Disarmed;
      if mounted {
        mounted := false;
        unmounts := unmounts + 1;
      }
      switchLevel := Some(High);
    }

    /** ReleaseSD, called by the holder of a grab. */
    method ReleaseSD(instantRelease: bool)
      requires pinsReady
      modifies this
      ensures State() == Release(old(State()), instantRelease)
    {
      if instantRelease {
        ReleaseCallback();
      } else {
        releaseTimer := Armed(SdReleaseTimeout);
      }
    }
  }

  /** The card is never available during the first ten seconds after boot. */
  lemma BootWindow(s: Sample)
    ensures IsSdAvailable(s) <==> s.uptime > 10_000_000 && s.sense == High
  {
  }

  /** The constructor's state is valid; grabs, releases by the holder and expiries of a running timer keep it valid. */
  lemma InitialValid()
    ensures Valid(Initial)
  {
  }

  lemma GrabValid(a: Arbiter, mountSucceeds: bool)
    requires Valid(a)
    ensures Valid(Grab(a, mountSucceeds))
  {
  }

  lemma ReleaseValid(a: Arbiter, instantRelease: bool)
    requires Valid(a) && a.isSdGrabbed
    ensures Valid(Release(a, instantRelease))
  {
  }

  lemma ExpireValid(a: Arbiter)
    requires Valid(a) && (a.timer.Armed? || a.isSdGrabbed)
    ensures Valid(Expire(a))
  {
  }

  /** Every grab disarms the timer and leaves the pins ready; only the first one opens the pin. */
  lemma GrabDisarmsAndInitsOnce(a: Arbiter, mountSucceeds: bool)
    ensures Grab(a, mountSucceeds).timer == Disarmed
    ensures Grab(a, mountSucceeds).pinsReady
    ensures Grab(a, mountSucceeds).switchInits == if a.pinsReady then a.switchInits else a.switchInits + 1
  {
  }

  /** A soft grab neither mounts nor drives the switch. */
  lemma SoftGrab(a: Arbiter, mountSucceeds: bool)
    requires a.isSdGrabbed
    ensures var b := Grab(a, mountSucceeds);
      b.mounts == a.mounts && b.mounted == a.mounted && b.isSdGrabbed
      && b.switchLevel == a.switchLevel
  {
  }

  /** A hard grab drives the switch Low, mounts once, and counts as grabbed even if the mount failed. */
  lemma HardGrab(a: Arbiter, mountSucceeds: bool)
    requires !a.isSdGrabbed
    ensures var b := Grab(a, mountSucceeds);
      b.isSdGrabbed && b.switchLevel == Some(Low) && b.mounts == a.mounts + 1 && b.mounted == mountSucceeds
  {
  }

  /** A soft release only arms the timer for 1000 ms. */
  lemma SoftRelease(a: Arbiter)
    ensures Release(a, false) == a.(timer := Armed(1000))
  {
  }

  /** An instant release and the timer's expiry do the same thing. */
  lemma InstantReleaseIsExpiry(a: Arbiter)
    ensures Release(a, true) == Expire(a)
    ensures !Expire(a).isSdGrabbed && Expire(a).timer == Disarmed && Expire(a).switchLevel == Some(High)
    ensures Expire(a).unmounts == if a.mounted then a.unmounts + 1 else a.unmounts
  {
  }

  /** Grab, soft release, grab with no expiry in between mounts the card exactly once. */
  lemma GrabSoftReleaseGrab(a: Arbiter, m1: bool, m2: bool)
    requires !a.isSdGrabbed
    ensures Grab(Release(Grab(a, m1), false), m2).mounts == a.mounts + 1
    ensures Grab(Release(Grab(a, m1), false), m2).mounted == m1
  {
  }

  /** The same with an expiry in between mounts twice. */
  lemma GrabExpireGrab(a: Arbiter, m1: bool, m2: bool)
    ensures Grab(Expire(Release(Grab(a, m1), false)), m2).mounts == Grab(a, m1).mounts + 1
  {
  }
}
