/** Consequences of the selection rule that callers of `pickPhysicalDevice`
    rely on: which device wins, when selection fails, and how the discrete
    bonus and the multimap's ordering of equal keys shape the outcome. */
module SelectionProperties {
  import opened Wrappers
  import opened Suitability
  import opened Selection

  /** With no devices, selection fails with the "no GPUs" error. */
  lemma EmptyListFails()
    ensures Select([]) == Failure(NoVulkanGpus)
    ensures Message(Select([]).error) == "failed to find GPUs with Vulkan support!"
  {
  }

  /** Completeness of the rule: the last device among those tied for the top
      score is selected whenever that score is positive. */
  lemma LastBestIsSelected(devices: seq<Device>, i: int)
    requires IsLastBest(devices, i) && Score(devices[i]) > 0
    ensures Select(devices) == Success(devices[i])
  {
    assert devices[i] in devices;
    var r := Select(devices);
    var k :| IsLastBest(devices, k) && r.value == devices[k];
    LastBestIsUnique(devices, i, k);
  }

  /** A non-empty list fails with "no suitable GPU" exactly when no device is
      a discrete GPU and every device reports a 2D image limit of 0. */
  lemma NoSuitableGpuIff(devices: seq<Device>)
    requires |devices| > 0
    ensures Select(devices) == Failure(NoSuitableGpu) <==>
      forall d :: d in devices ==> d.kind != DiscreteGpu && d.maxImageDimension2D == 0
    ensures Select(devices) == Failure(NoSuitableGpu) ==>
      Message(Select(devices).error) == "failed to find a suitable GPU!"
  {
  }

  /** The discrete bonus is added, not a hard preference: a non-discrete
      device whose limit exceeds a discrete device's by more than the bonus
      outranks it, so the discrete device is never the one selected. */
  lemma BonusIsAdditive(devices: seq<Device>, discrete: Device, other: Device)
    requires discrete in devices && other in devices
    requires discrete.kind == DiscreteGpu && other.kind != DiscreteGpu
    requires other.maxImageDimension2D > discrete.maxImageDimension2D + DISCRETE_BONUS
    ensures Select(devices).Success? && Select(devices).value != discrete
  {
  }

  /** A lone discrete GPU is always selected. */
  lemma SingleDiscreteGpuSelected(d: Device)
    requires d.kind == DiscreteGpu
    ensures Select([d]) == Success(d)
  {
    assert IsLastBest([d], 0);
    LastBestIsSelected([d], 0);
  }

  /** Of two devices with the same positive score, the one
      enumerated second is selected, whichever order they come in. */
  lemma TieGoesToLaterDevice(a: Device, b: Device)
    requires Score(a) == Score(b) > 0
    ensures Select([a, b]) == Success(b)
    ensures Select([b, a]) == Success(a)
  {
    assert IsLastBest([a, b], 1);
    LastBestIsSelected([a, b], 1);
    assert IsLastBest([b, a], 1);
    LastBestIsSelected([b, a], 1);
  }

  /** Failed selection leaves `physicalDevice` at VK_NULL_HANDLE when it
      started there; successful selection stores an enumerated device. */
  lemma NullHandleKeptOnFailure(devices: seq<Device>)
    ensures var (h, thrown) := PickPhysicalDevice(NullHandle, devices);
      && (thrown.Some? ==> h == NullHandle)
      && (thrown.None? <==> Select(devices).Success?)
      && (thrown.None? ==> h == Handle(Select(devices).value))
  {
  }
}
