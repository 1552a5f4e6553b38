/**
 * The fallback that PWRServletContainerListener installs for each request:
 * when the container cannot resolve a dependency, its
 * LateInstantiatingComponentMonitor decides, from the kind of the key that
 * was looked up, whether to build the component on the fly (a concrete
 * class), read it from the current HTTP request (a string key), or give up.
 *
 * Reflection is replaced by the fields of `Key`; building a class in a
 * transient child container and reading a request attribute are oracles
 * passed in by the caller. Either oracle may throw, and the monitor lets
 * the exception through.
 */
module WebRemoting {
  import opened JavaValues

  /** A container: the request container, or a transient child of another one. */
  datatype Container = Container(id: nat) | Transient(parent: Container)

  /** The key of the failed lookup, classified by its runtime type. */
  datatype Key =
    | ClassKey(name: string, isInterface: bool, isAbstract: bool)
    | StringKey(s: string)
    | OtherKey

  /** Package prefix of the classes that are never built on the fly. */
  const JAVA_LANG: string := "java.lang"

  /** Java's `String.startsWith`, compared character by character. */
  function StartsWith(s: string, prefix: string): (b: bool)
    ensures b <==> |prefix| <= |s| && s[..|prefix|] == prefix
  {
    if prefix == [] then true
    else if s == [] then false
    else s[0] == prefix[0] && StartsWith(s[1..], prefix[1..])
  }

  /**
   * A class key that the monitor tries to build: its name does not begin
   * with "java.lang" (a raw prefix test on the name), and it is neither an
   * interface nor abstract.
   */
  function Instantiable(key: Key): (b: bool)
    ensures b <==> key.ClassKey? && !key.isInterface && !key.isAbstract &&
                   !(|JAVA_LANG| <= |key.name| && key.name[..|JAVA_LANG|] == JAVA_LANG)
  {
    key.ClassKey? && !StartsWith(key.name, JAVA_LANG) && !key.isInterface && !key.isAbstract
  }

  /**
   * The container on which the class is registered when the monitor builds
   * it: a transient child of the container passed in, and never that
   * container itself. `None` when nothing is built.
   */
  function ConstructionSite(requestContainer: Container, key: Key): (site: Option<Container>)
    ensures site.Some? <==> Instantiable(key)
    ensures site.Some? ==> site.value.Transient? && site.value.parent == requestContainer
    ensures site.Some? ==> site.value != requestContainer
  {
    if Instantiable(key) then
      ChildIsNotParent(requestContainer);
      Some(Transient(requestContainer))
    else None
  }

  /** Nesting depth of a container below its root. */
  function Depth(c: Container): nat {
    match c
    case Container(_) => 0
    case Transient(parent) => Depth(parent) + 1
  }

  /** A transient child is a different container from its parent. */
  lemma ChildIsNotParent(c: Container)
    ensures Transient(c) != c
  {
    assert Depth(Transient(c)) == Depth(c) + 1;
  }

  /**
   * LateInstantiatingComponentMonitor.noComponentFound. `construct(c, k)` is
   * what registering class `k` on container `c` and then asking `c` for it
   * ends with; `attribute(c, s)` is what reading attribute `s` of the HTTP
   * request that container `c` holds ends with. A null from either oracle
   * gives null; an exception from either is passed on.
   */
  function NoComponentFound<O>(requestContainer: Container, key: Key,
                               construct: (Container, Key) -> Outcome<Option<O>>,
                               attribute: (Container, string) -> Outcome<Option<O>>): (r: Outcome<Option<O>>)
    // a java.lang* class is never built, whatever its modifiers
    ensures key.ClassKey? && StartsWith(key.name, JAVA_LANG) ==> r == Returned(None)
    // neither is an interface or an abstract class
    ensures key.ClassKey? && (key.isInterface || key.isAbstract) ==> r == Returned(None)
    // any other class is built in a transient child of the request container
    ensures Instantiable(key) ==> r == construct(Transient(requestContainer), key)
    // a string names a request attribute
    ensures key.StringKey? ==> r == attribute(requestContainer, key.s)
    // any other key is not resolved
    ensures key.OtherKey? ==> r == Returned(None)
  {
    match key
    case ClassKey(name, isInterface, isAbstract) =>
      if StartsWith(name, JAVA_LANG) then Returned(None)
      else if !isInterface && !isAbstract then
        var site := ConstructionSite(requestContainer, key);
        var built := construct(site.value, key);
        if built.Threw? then built
        else if built.value.Some? then built
        else Returned(None)
      else Returned(None)
    case StringKey(s) =>
      var found := attribute(requestContainer, s);
      if found.Threw? then found
      else if found.value.Some? then found
      else Returned(None)
    case OtherKey => Returned(None)
  }

  /** The monitor has no state of its own. */
  class LateInstantiatingComponentMonitor {
    constructor () { }
  }

  class PWRServletContainerListener {
    constructor () { }

    /** Every request gets a monitor of its own. */
    method MakeRequestComponentMonitor() returns (m: LateInstantiatingComponentMonitor)
      ensures fresh(m)
    {
      m := new LateInstantiatingComponentMonitor();
    }
  }

  /**
   * The monitor resolves a key exactly when an oracle it consults for that
   * key answers non-null, and throws exactly when that oracle throws.
   */
  lemma ResolvedIff<O>(requestContainer: Container, key: Key,
                       construct: (Container, Key) -> Outcome<Option<O>>,
                       attribute: (Container, string) -> Outcome<Option<O>>)
    ensures var r := NoComponentFound(requestContainer, key, construct, attribute);
      (r.Returned? && r.value.Some?) <==>
        (Instantiable(key) && construct(Transient(requestContainer), key).Returned? &&
         construct(Transient(requestContainer), key).value.Some?) ||
        (key.StringKey? && attribute(requestContainer, key.s).Returned? &&
         attribute(requestContainer, key.s).value.Some?)
    ensures NoComponentFound(requestContainer, key, construct, attribute).Threw? <==>
      (Instantiable(key) && construct(Transient(requestContainer), key).Threw?) ||
      (key.StringKey? && attribute(requestContainer, key.s).Threw?)
  {
  }

  /** The prefix test is on the raw name: every name that begins with "java.lang", java.lang.reflect ones included, is refused. */
  lemma JavaLangPrefixRefused<O>(requestContainer: Container, rest: string,
                                   isInterface: bool, isAbstract: bool,
                                   construct: (Container, Key) -> Outcome<Option<O>>,
                                   attribute: (Container, string) -> Outcome<Option<O>>)
    ensures NoComponentFound(requestContainer, ClassKey(JAVA_LANG + rest, isInterface, isAbstract),
                             construct, attribute) == Returned(None)
  {
  }
}
