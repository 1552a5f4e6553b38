# PicoContainer hot swapping and late instantiation, modelled in Dafny

This project models two small pieces of PicoContainer that carry logic of their own.

- **Hot swapping** (`gems_behaviors.dfy`, module `GemsBehaviors`). This is the `HotSwapping` behavior factory of the gems package and the `HotSwappable` adapter it puts in front of a component adapter.
  - The adapter owns a `Swappable` cell. Its occupant can be swapped at runtime; each swap hands back the previous occupant.
  - The adapter caches the first non-null instance the inner adapter produces.
  - The inner adapter and the rest of the chain may throw; the code lets the exception through, and so does the model.
  - The factory reads two property flags, `NO_HOT_SWAP` and `HOT_SWAP`. It removes them from the caller's properties and decides whether to wrap the adapter at all.
  - The code works by updating fields, so the model is imperative: classes `Properties`, `ComponentAdapter` (the inner adapter, as an oracle), `Swappable`, `HotSwappable` and `HotSwapping`.
  - Beside the classes there is a value-level model: `Replay`/`HandedBack` for a run of swaps, and `Lookup`/`Serve` for a run of `getComponentInstance` calls. The lemmas state the source's promises about these runs. The methods' `ensures` tie each call to that model: `GetComponentInstance` equals one `Lookup` step, and `Swappable.Valid()` says that the occupant is `Replay(None, swaps)` and the values handed back so far are `HandedBack(None, swaps)`.
- **Late instantiation** (`web_remoting.dfy`, module `WebRemoting`). When a lookup fails, `LateInstantiatingComponentMonitor.noComponentFound` picks a fallback from the kind of the key.
  - A concrete class outside `java.lang*` is built in a transient child of the request container.
  - A string key is read from the current HTTP request.
  - Every other key yields null.
  - An exception from building or from the request lookup is passed on.
  - The decision is a pure function, `NoComponentFound`. Building and request lookup are oracle parameters, and reflection is replaced by the fields of the `Key` datatype.

`java_values.dfy` holds `Option`, which stands for a Java reference that may be `null`, and `Outcome`, which is a returned value or a thrown exception.

The Javadoc of `HotSwappable` (HotSwapping.java:77-78) says that the class does not cache instances. Its `getComponentInstance` (HotSwapping.java:111-118) does cache them. The model follows the code.

## Model

| member | source | states |
|---|---|---|
| `GemsBehaviors.Properties.RemoveIfPresent` | pico/gems/src/java/org/picocontainer/gems/behaviors/HotSwapping.java:43-47 | reports exactly whether the flag was present, and afterwards the flag is absent and every other flag is kept |
| `GemsBehaviors.ComponentAdapter.GetComponentInstance` | pico/gems/src/java/org/picocontainer/gems/behaviors/HotSwapping.java:114 | the inner adapter as an oracle: each consultation is counted, and its answer (an instance, null or an exception) depends on the request and on how many consultations came before |
| `GemsBehaviors.HandedBack` | pico/gems/src/java/org/picocontainer/gems/behaviors/HotSwapping.java:133-137 | a run of swaps hands back exactly one value per swap |
| `GemsBehaviors.Replay` | pico/gems/src/java/org/picocontainer/gems/behaviors/HotSwapping.java:127-137 | after a run of swaps the cell holds the argument of the last swap, whatever it held before; after no swap it holds what it held |
| `GemsBehaviors.HandedBackIsPrevious` | pico/gems/src/java/org/picocontainer/gems/behaviors/HotSwapping.java:133-137 | the first swap of a run hands back the initial occupant, and every later swap hands back the previous swap's argument |
| `GemsBehaviors.HandedBackSnoc` | pico/gems/src/java/org/picocontainer/gems/behaviors/HotSwapping.java:133-137 | one more swap hands back what the cell held after the swaps before it; `Swappable.Swap` uses it to keep its record of handed-back values equal to `HandedBack` |
| `GemsBehaviors.Swappable.constructor` | pico/gems/src/java/org/picocontainer/gems/behaviors/HotSwapping.java:125-127 | a new cell holds null, has seen no swap and has handed nothing back |
| `GemsBehaviors.Swappable.GetInstance` | pico/gems/src/java/org/picocontainer/gems/behaviors/HotSwapping.java:129-131 | returns the occupant: null before the first swap, afterwards the argument of the last swap |
| `GemsBehaviors.Swappable.Swap` | pico/gems/src/java/org/picocontainer/gems/behaviors/HotSwapping.java:133-137 | hands back the value held before the call and installs the argument; the occupant stays the last argument swapped in, and the values handed back stay `HandedBack` of the arguments |
| `GemsBehaviors.Lookup` | pico/gems/src/java/org/picocontainer/gems/behaviors/HotSwapping.java:113-117 | one `getComponentInstance` call: with an instance cached, returns it and asks nobody; otherwise asks the inner adapter once and passes on its answer; afterwards the cache holds the returned value, and nothing when the call threw |
| `GemsBehaviors.Serve` | pico/gems/src/java/org/picocontainer/gems/behaviors/HotSwapping.java:111-118 | a run of `getComponentInstance` calls ends in exactly one outcome per call |
| `GemsBehaviors.ServeCached` | pico/gems/src/java/org/picocontainer/gems/behaviors/HotSwapping.java:113-117 | while a non-null instance is cached, every call returns it, and neither the cache nor the inner adapter's consultation count changes |
| `GemsBehaviors.ServeSplit` | pico/gems/src/java/org/picocontainer/gems/behaviors/HotSwapping.java:111-118 | a run of calls is the same as its first part followed by the rest, started from the state the first part left |
| `GemsBehaviors.CachedIsLastReturned` | pico/gems/src/java/org/picocontainer/gems/behaviors/HotSwapping.java:114-117 | after a run of calls, the cached field holds the value the last call returned, and nothing when the last call threw |
| `GemsBehaviors.FirstHitSticks` | pico/gems/src/java/org/picocontainer/gems/behaviors/HotSwapping.java:111-118 | once a call returns a non-null value, every later call returns that same value and the inner adapter is not consulted again |
| `GemsBehaviors.ConsultedAtMostOncePerCall` | pico/gems/src/java/org/picocontainer/gems/behaviors/HotSwapping.java:113-115 | the inner adapter is consulted at most once per call, and never while an instance is cached |
| `GemsBehaviors.MissesAreNotCached` | pico/gems/src/java/org/picocontainer/gems/behaviors/HotSwapping.java:113-115 | neither a null answer nor an exception is cached: an inner adapter that never answers with an instance is consulted on every call, and no call returns an instance |
| `GemsBehaviors.HotSwappable.constructor` | pico/gems/src/java/org/picocontainer/gems/behaviors/HotSwapping.java:86-92 | the new adapter wraps the given inner adapter, owns a fresh cell that holds null and was never swapped, and has nothing cached |
| `GemsBehaviors.HotSwappable.GetSwappable` | pico/gems/src/java/org/picocontainer/gems/behaviors/HotSwapping.java:86-97 | always returns the adapter's own cell, which is a constant field set at construction |
| `GemsBehaviors.HotSwappable.SwapRealInstance` | pico/gems/src/java/org/picocontainer/gems/behaviors/HotSwapping.java:100-102 | swaps on the adapter's own cell and hands back the previous occupant; the cached instance and the inner adapter are left unchanged |
| `GemsBehaviors.HotSwappable.GetRealInstance` | pico/gems/src/java/org/picocontainer/gems/behaviors/HotSwapping.java:105-107 | returns the occupant of the adapter's own cell, which is the last value swapped in |
| `GemsBehaviors.HotSwappable.GetComponentInstance` | pico/gems/src/java/org/picocontainer/gems/behaviors/HotSwapping.java:111-118 | is one `Lookup` step: with an instance cached, returns it without consulting the inner adapter or touching the cell; otherwise consults it once, caches and returns its answer, or passes on its exception with nothing cached; the cell is left alone or, only when a new answer was returned, has that answer swapped in |
| `GemsBehaviors.HotSwappable.GetDescriptor` | pico/gems/src/java/org/picocontainer/gems/behaviors/HotSwapping.java:121-123 | the descriptor is always "HotSwappable" |
| `GemsBehaviors.HotSwapping.CreateComponentAdapter` | pico/gems/src/java/org/picocontainer/gems/behaviors/HotSwapping.java:38-49 | the chain builds a new inner adapter for the registration, seeing the flags as they were on entry; if that throws, the exception is passed on and the flags are untouched. With NO_HOT_SWAP set, that flag alone is removed (HOT_SWAP stays) and the new inner adapter is returned unwrapped. Otherwise HOT_SWAP is removed and a fresh HotSwappable around the new inner adapter is returned, with a fresh, never-swapped cell holding null and nothing cached |
| `GemsBehaviors.HotSwapping.AddComponentAdapter` | pico/gems/src/java/org/picocontainer/gems/behaviors/HotSwapping.java:52-69 | the same routing, but the flag is removed first: the rest of the chain sees the flags after the removal, and the removal stands even when the chain throws (the exception is passed on); otherwise the chain's result is returned unwrapped or inside a fresh HotSwappable with a fresh, never-swapped, null cell |
| `WebRemoting.StartsWith` | web/web-remoting/src/java/com/picocontainer/web/remoting/PWRServletContainerListener.java:36 | the character-by-character prefix test holds exactly when the prefix fits in the name and equals the name's leading slice |
| `WebRemoting.Instantiable` | web/web-remoting/src/java/com/picocontainer/web/remoting/PWRServletContainerListener.java:36-39 | the monitor tries to build a key exactly when it is a class whose name does not begin with "java.lang" (a raw prefix test) and that is neither an interface nor abstract |
| `WebRemoting.ConstructionSite` | web/web-remoting/src/java/com/picocontainer/web/remoting/PWRServletContainerListener.java:39-41 | a class is registered somewhere exactly when the key is a concrete class outside java.lang*, and then on a transient child of the request container, never on that container itself |
| `WebRemoting.NoComponentFound` | web/web-remoting/src/java/com/picocontainer/web/remoting/PWRServletContainerListener.java:33-54 | java.lang* classes give null whatever their modifiers; interfaces and abstract classes give null; any other class gives what the transient child builds, null or an exception included; a string key gives the request attribute of that name, or the lookup's exception; any other key gives null |
| `WebRemoting.ResolvedIff` | web/web-remoting/src/java/com/picocontainer/web/remoting/PWRServletContainerListener.java:33-54 | the monitor resolves a key if and only if an oracle it consults for that key answers non-null, and throws if and only if that oracle throws |
| `WebRemoting.JavaLangPrefixRefused` | web/web-remoting/src/java/com/picocontainer/web/remoting/PWRServletContainerListener.java:36-38 | every class name that begins with "java.lang" gives null, java.lang.reflect names included, whatever the class's modifiers and the oracles |
| `WebRemoting.PWRServletContainerListener.MakeRequestComponentMonitor` | web/web-remoting/src/java/com/picocontainer/web/remoting/PWRServletContainerListener.java:27-29 | every call returns a new monitor |

## Left out

- Proxy generation: `HotSwappable` extends `AsmImplementationHiding.AsmHiddenImplementation`, which builds an ASM proxy around the real instance. That class is not part of this model, so the proxy that would forward calls to the cell's occupant is not modelled. `GetComponentInstance` returns the cached value as it is.
- `HotSwappable.GetComponentInstance`: what the superclass does with the cell it gets from `getSwappable` is not modelled. The model lets the call either leave the cell alone or swap the new instance into it, so it promises nothing about which; it also caches the inner adapter's answer where the program caches the superclass's proxy.
- Exceptions are modelled as `Outcome.Threw` with an abstract `Exception`. Which exceptions the unseen code throws, and when, is left to the oracles.
- The `synchronized (swappable)` block in `getComponentInstance` is concurrency control. The model runs calls one after another and claims nothing about threads.
- The component monitor, lifecycle strategy and parameters passed to `createComponentAdapter` and `addComponentAdapter` are not modelled. The component key and implementation class reach `chainCreate` as a `Registration`, named by strings. The monitor is also passed to `newBehavior`, which is taken as the identity (below).
- `HotSwapping.CreateComponentAdapter`, `HotSwapping.AddComponentAdapter`: the rest of the chain is taken to leave the properties alone. The unseen behaviors further down may remove flags of their own, and the model does not capture that.
- `ComponentMonitor.newBehavior` is defined outside these files and is taken as the identity.
- `AbstractBehavior.removePropertiesIfPresent` is defined outside these files. It is taken as "report whether the flag was present, and remove it".
- The values of `GemsCharacteristics.NO_HOT_SWAP` and `HOT_SWAP` are not part of this model. The constants in `GemsBehaviors` are stand-in names, and nothing proved depends on them.
- `WebRemoting.ConstructionSite`: the program builds a new `TransientPicoContainer` on every lookup. The model names the child only by its parent, so every lookup on one request container uses the same child value. Because `construct` is a function, repeated lookups of one class there get equal outcomes, where the program builds a new instance each time.
- Reflection: `Class.getName`, `isInterface` and `Modifier.isAbstract` become fields of `WebRemoting.Key`. Building a class in a `TransientPicoContainer` becomes the `construct` oracle.
- Servlet plumbing: fetching the `HttpServletRequest` from the container and `StringFromRequest.provide` become the single `attribute` oracle.
- Serialization markers, annotations and the commented-out `addRequestBehaviors` carry no behavior.
- `Decorating.java` is not part of this model. It only calls its delegate and an unseen decorator.
