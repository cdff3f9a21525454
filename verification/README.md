# GPU selection of the Vulkan tutorial application

The application (`src/main.cpp`) opens a window, creates a Vulkan instance and
then picks one physical device. This project models the picking step:

- `rateDeviceSuitability` gives each device a score: 1000 if the driver reports
  it as a discrete GPU, plus its `maxImageDimension2D` limit.
- `pickPhysicalDevice` throws if the driver reports no devices. Otherwise it
  inserts `(score, device)` for every device into a
  `std::multimap<int, VkPhysicalDevice>`, takes the element at `rbegin()`, and
  stores its device in the `physicalDevice` member if the score is positive.
  If the score is not positive it throws.

A device is a record with an opaque id, a device type and its
`maxImageDimension2D` limit (`Suitability.Device`). The driver queries that
fill such records are inputs, not modelled calls. The multimap is modelled
as a sequence of key/value entries in iteration order (`Multimap`). `insert`
places a new element after every element whose key is not greater than its
own. This follows section 23.2.4 of ISO/IEC 14882:2011 ([associative.reqmts]):
an element is inserted at the upper end of its equal-key range. Thrown
exceptions are `Failure` values of a `Result`.

`Selection.Select` is written the way the program computes the choice, through
the multimap. Its contract is stated against a declarative rule,
`Selection.IsLastBest`: no device scores higher than the chosen one, and no
device enumerated after it scores as high. So among devices tied for the top
score, the last one enumerated wins. The program does not document its
tie-break; it follows from the code's use of `std::multimap` and `rbegin()`,
and the model follows the code.

Files: `wrappers.dfy` (Option/Result), `suitability.dfy` (device record and
score), `multimap.dfy` (the ordered multimap), `selection.dfy` (the selection
rule and the `physicalDevice` update), `properties.dfy` (consequences of the
rule).

## Model

| member | source | states |
|---|---|---|
| `Suitability.Score` | src/main.cpp:127-139 | The score fits in a C++ `int`. It is at least the device's `maxImageDimension2D`. It exceeds that limit exactly when the device is a discrete GPU. |
| `Suitability.AddUnsignedToInt` | src/main.cpp:136 | `int += uint32_t` is defined exactly when the sum reduced modulo 2^32 fits in an `int`. A defined result is a non-negative `int` congruent to the exact sum modulo 2^32, and equals the exact sum whenever that sum fits in an `int`. |
| `Suitability.RateDeviceSuitability` | src/main.cpp:127-139 | The score computed in C++ arithmetic on any 32-bit limit is a non-negative `int` congruent to bonus plus limit modulo 2^32. It is undefined exactly when that sum lies strictly between INT_MAX and 2^32. |
| `Suitability.ScoreMatchesCppArithmetic` | src/main.cpp:128-136 | For every modelled device, the C++ computation (`int` plus `uint32_t` under the usual arithmetic conversions) is defined and equals the exact sum the model ranks by. |
| `Suitability.CppArithmeticDefinedness` | src/main.cpp:136 | On any 32-bit limit, the C++ score is defined exactly when the exact sum fits in an `int` or wraps past 2^32. It equals the exact sum in the first case and the sum minus 2^32 in the second. |
| `Multimap.UpperBound` | src/main.cpp:108 | The returned position separates the entries with keys not greater than the new key from those with greater keys. |
| `Multimap.Insert` | src/main.cpp:108 | Insertion keeps the multimap sorted and adds exactly the new element, as a multiset. The element goes after every equal key and before every greater key. |
| `Multimap.Rbegin` | src/main.cpp:112 | `rbegin()` is an element of the multimap whose key is at least every key in it. |
| `Multimap.RbeginAfterInsert` | src/main.cpp:108-112 | A new element whose key is at least the current top key becomes the `rbegin()` element, ties included. Otherwise `rbegin()` is unchanged. |
| `Selection.Candidates` | src/main.cpp:103-109 | After the scoring loop, the multimap is sorted and has exactly as many candidates as there are devices. As a multiset, it holds one `(score, device)` pair per enumerated device. |
| `Selection.RbeginIsLastBest` | src/main.cpp:103-112 | The `rbegin()` candidate belongs to the last device among those tied for the highest score. |
| `Selection.LastBestIsUnique` | src/main.cpp:112 | At most one position is the last top-scoring one, so the rule picks a unique device. |
| `Selection.Select` | src/main.cpp:87-115 | Fails with the "no GPUs" error exactly when the list is empty. Fails with "no suitable GPU" exactly when the list is non-empty and every device scores 0. On success, the chosen device is enumerated and scores above 0. No device scores higher, and it is the last device enumerated with the top score. |
| `Selection.MessagesDistinguishErrors` | src/main.cpp:94-113 | The two selection errors print different `what()` texts. |
| `Selection.PickPhysicalDevice` | src/main.cpp:87-115 | Nothing is thrown exactly when some device scores above 0. Then `physicalDevice` holds the last enumerated device among those with the top score. When an error is thrown, `physicalDevice` keeps its previous value. The "no GPUs" error is thrown exactly for an empty list. |
| `SelectionProperties.EmptyListFails` | src/main.cpp:94-95 | An empty device list fails with "failed to find GPUs with Vulkan support!". |
| `SelectionProperties.LastBestIsSelected` | src/main.cpp:98-112 | If the last top-scoring device has a positive score, it is the one selected. This is the converse of `Select`'s success clause. |
| `SelectionProperties.NoSuitableGpuIff` | src/main.cpp:112-113 | A non-empty list fails with "failed to find a suitable GPU!" exactly when no device is discrete and every limit is 0. |
| `SelectionProperties.BonusIsAdditive` | src/main.cpp:131-136 | Take a non-discrete device whose limit exceeds a discrete device's limit by more than 1000. That device outranks the discrete one, so the discrete device is not selected. |
| `SelectionProperties.SingleDiscreteGpuSelected` | src/main.cpp:106-112 | A list holding one discrete GPU selects it. |
| `SelectionProperties.TieGoesToLaterDevice` | src/main.cpp:108-112 | Of two devices with the same positive score, the one enumerated second is selected, in either order. |
| `SelectionProperties.NullHandleKeptOnFailure` | src/main.cpp:112-113 | Starting from VK_NULL_HANDLE, a failed selection leaves `physicalDevice` at VK_NULL_HANDLE. A successful one stores the selected device. |

## Left out

- `Suitability.Score`: the device record only admits a `maxImageDimension2D` of at most `INT_MAX - 1000`, so `Select` ranks no device outside that range. The excluded devices are:
  - non-discrete devices with a limit in `(INT_MAX - 1000, INT_MAX]`, whose C++ score is well defined and equals the limit;
  - non-discrete devices with a limit above `INT_MAX`, whose conversion back to `int` is implementation-defined before C++20;
  - discrete GPUs with a limit in `(INT_MAX - 1000, 2^32 - 1000)`, whose conversion is implementation-defined in the same way;
  - discrete GPUs with a limit of at least `2^32 - 1000`, whose sum wraps modulo 2^32 to a score below 1000.

  `Suitability.RateDeviceSuitability` and `Suitability.CppArithmeticDefinedness` describe the C++ score on all of these.
- Window creation and the event loop (`initWindow`, `mainLoop`): thin calls into the GLFW windowing library.
- Teardown (`cleanup`): it destroys the Vulkan instance with `vkDestroyInstance`, then destroys the window and shuts down GLFW. These are foreign calls with no logic of their own.
- Instance creation (`createInstance`): it only fills structures and calls `vkCreateInstance`. The duplicated call at lines 79 and 83 is a source defect, not logic.
- The driver queries `vkEnumeratePhysicalDevices`, `vkGetPhysicalDeviceProperties` and `vkGetPhysicalDeviceFeatures`: these are foreign calls. Their results are the input device list. The queried features are never used.
- Exception propagation to `main` and the process exit status: failures are `Result`/`Option` values instead.
