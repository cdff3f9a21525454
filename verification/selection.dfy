/** `pickPhysicalDevice` (src/main.cpp): every enumerated device is scored
    into a `std::multimap<int, VkPhysicalDevice>`, and the element at
    `rbegin()` is taken if its score is positive. */
module Selection {
  import opened Wrappers
  import opened Suitability
  import opened Multimap

  /** The two ways device selection throws. */
  datatype SelectError = NoVulkanGpus | NoSuitableGpu

  /** The `what()` text of the exception thrown for each error. */
  function Message(e: SelectError): string {
    match e
    case NoVulkanGpus => "failed to find GPUs with Vulkan support!"
    case NoSuitableGpu => "failed to find a suitable GPU!"
  }

  /** The printed text tells the two errors apart. */
  lemma MessagesDistinguishErrors(e: SelectError, other: SelectError)
    ensures Message(e) == Message(other) ==> e == other
  {
  }

  /** The `physicalDevice` member: VK_NULL_HANDLE until a device is chosen. */
  datatype PhysicalDevice = NullHandle | Handle(device: Device)

  /** The multimap element inserted for one device. */
  function Candidate(d: Device): Entry<Device> {
    Entry(Score(d), d)
  }

  /** One candidate per device, in enumeration order. */
  function ScoredDevices(devices: seq<Device>): seq<Entry<Device>> {
    seq(|devices|, i requires 0 <= i < |devices| => Candidate(devices[i]))
  }

  /** The candidate multimap after the scoring loop: sorted by score, holding
      exactly one candidate for each enumerated device. */
  function Candidates(devices: seq<Device>): (m: seq<Entry<Device>>)
    ensures Sorted(m)
    ensures |m| == |devices|
    ensures multiset(m) == multiset(ScoredDevices(devices))
  {
    if |devices| == 0 then []
    else
      var n := |devices| - 1;
      assert ScoredDevices(devices) == ScoredDevices(devices[..n]) + [Candidate(devices[n])];
      Insert(Candidates(devices[..n]), Candidate(devices[n]))
  }

  /** Device `i` is the one the rule should pick: no device scores higher,
      and no device enumerated after it scores as high. */
  ghost predicate IsLastBest(devices: seq<Device>, i: int) {
    && 0 <= i < |devices|
    && (forall j :: 0 <= j < |devices| ==> Score(devices[j]) <= Score(devices[i]))
    && (forall j :: i < j < |devices| ==> Score(devices[j]) < Score(devices[i]))
  }

  /** Appending a device to a list whose last best device is `i`: the new
      device takes over if it scores at least as high, otherwise `i` stays. */
  lemma ExtendLastBest(devices: seq<Device>, i: int)
    requires |devices| > 1 && IsLastBest(devices[..|devices| - 1], i)
    ensures Score(devices[i]) <= Score(devices[|devices| - 1]) ==> IsLastBest(devices, |devices| - 1)
    ensures Score(devices[|devices| - 1]) < Score(devices[i]) ==> IsLastBest(devices, i)
  {
    var n := |devices| - 1;
    var prefix := devices[..n];
    forall j | 0 <= j < n
      ensures Score(devices[j]) <= Score(devices[i])
    {
      assert devices[j] == prefix[j];
    }
    forall j | i < j < n
      ensures Score(devices[j]) < Score(devices[i])
    {
      assert devices[j] == prefix[j];
    }
  }

  /** The candidate at `rbegin()` is that of the last device among those tied
      for the top score. */
  lemma {:induction false} RbeginIsLastBest(devices: seq<Device>)
    requires |devices| > 0
    ensures exists i :: IsLastBest(devices, i) && Rbegin(Candidates(devices)) == Candidate(devices[i])
  {
    var n := |devices| - 1;
    var prefix := devices[..n];
    var d := devices[n];
    var m := Candidates(prefix);
    assert Candidates(devices) == Insert(m, Candidate(d));
    RbeginAfterInsert(m, Candidate(d));
    if n == 0 {
      assert IsLastBest(devices, 0);
    } else {
      RbeginIsLastBest(prefix);
      var i :| IsLastBest(prefix, i) && Rbegin(m) == Candidate(prefix[i]);
      assert devices[i] == prefix[i];
      ExtendLastBest(devices, i);
      if Score(devices[i]) <= Score(d) {
        assert IsLastBest(devices, n);
      } else {
        assert IsLastBest(devices, i);
      }
    }
  }

  /** At most one index satisfies `IsLastBest`, so the rule determines the
      selected position. */
  lemma LastBestIsUnique(devices: seq<Device>, i: int, k: int)
    requires IsLastBest(devices, i) && IsLastBest(devices, k)
    ensures i == k
  {
    assert Score(devices[i]) == Score(devices[k]);
  }

  /** The selection rule: fail on an empty list, otherwise take the device at
      `rbegin()` of the candidate multimap if its score is positive. The
      chosen device is an enumerated one with a positive score that no device
      beats and no later device ties; failure to find a suitable GPU happens
      exactly when every device scores 0. */
  function Select(devices: seq<Device>): (r: Result<Device, SelectError>)
    ensures r == Failure(NoVulkanGpus) <==> |devices| == 0
    ensures r == Failure(NoSuitableGpu) <==>
      |devices| > 0 && forall d :: d in devices ==> Score(d) == 0
    ensures r.Success? ==> r.value in devices && 0 < Score(r.value)
    ensures r.Success? ==> forall d :: d in devices ==> Score(d) <= Score(r.value)
    ensures r.Success? ==> exists i :: IsLastBest(devices, i) && r.value == devices[i]
  {
    if |devices| == 0 then Failure(NoVulkanGpus)
    else
      var best := Rbegin(Candidates(devices));
      RbeginIsLastBest(devices);
      if best.key > 0 then Success(best.value) else Failure(NoSuitableGpu)
  }

  /** `pickPhysicalDevice` as a step on the `physicalDevice` member: on
      success the member holds the selected device and nothing is thrown; on
      failure the error is thrown and the member keeps its previous value. */
  function PickPhysicalDevice(physicalDevice: PhysicalDevice, devices: seq<Device>)
    : (r: (PhysicalDevice, Option<SelectError>))
    ensures r.1.None? <==> exists d :: d in devices && Score(d) > 0
    ensures r.1.Some? ==> r.0 == physicalDevice
    ensures r.1 == Some(NoVulkanGpus) <==> |devices| == 0
    ensures r.1.None? ==> r.0.Handle? && r.0.device in devices
    ensures r.1.None? ==> exists i :: IsLastBest(devices, i) && r.0 == Handle(devices[i])
  {
    match Select(devices)
    case Success(d) => (Handle(d), None)
    case Failure(e) => (physicalDevice, Some(e))
  }
}
