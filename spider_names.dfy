/**
 * Resolving the configured spider names (`settings.PROXIES_SPIDERS`), from
 * `RunSpider.get_spider_obj_from_settings` in file_celery/schedule_spider.py.
 *
 * Each full name is split at its last dot into a module path and a class
 * name, as `full_name.rsplit('.', maxsplit=1)` does. Importing the module,
 * looking up the class and instantiating it are Python reflection; they are
 * the parameter `load`, which yields `None` where the import or the lookup
 * fails.
 */
module SpiderNames {
  import opened Wrappers

  /** Why a configured name could not be turned into a spider. */
  datatype ConfigError =
    | Unsplittable(name: string)   // no dot: unpacking the split raises ValueError
    | Unresolvable(name: string)   // the module or the class does not exist

  /** The index of the last dot in `s`, if there is one. */
  function LastDot(s: string): (r: Option<nat>)
    ensures r.None? <==> '.' !in s
    ensures r.Some? ==> r.value < |s| && s[r.value] == '.' && '.' !in s[r.value + 1..]
  {
    if |s| == 0 then None
    else if s[|s| - 1] == '.' then Some(|s| - 1)
    else
      var init := s[..|s| - 1];
      assert s == init + [s[|s| - 1]];
      match LastDot(init)
      case None => None
      case Some(i) =>
        assert s[i + 1..] == init[i + 1..] + [s[|s| - 1]];
        Some(i)
  }

  /**
   * `full_name.rsplit('.', maxsplit=1)` unpacked into `(module_name, class_name)`.
   * The split yields two parts exactly when the name holds a dot; otherwise
   * the unpacking fails.
   */
  function SplitName(fullName: string): (r: Result<(string, string), ConfigError>)
    ensures r.Success? ==> r.value.0 + "." + r.value.1 == fullName && '.' !in r.value.1
    ensures r.Failure? <==> '.' !in fullName
    ensures r.Failure? ==> r.error == Unsplittable(fullName)
  {
    match LastDot(fullName)
    case None => Failure(Unsplittable(fullName))
    case Some(i) =>
      assert fullName == fullName[..i] + "." + fullName[i + 1..];
      Success((fullName[..i], fullName[i + 1..]))
  }

  /** In `moduleName + "." + className` with a dot-free class name, the last dot is the joining one. */
  lemma {:induction false} LastDotOfJoin(moduleName: string, className: string)
    requires '.' !in className
    ensures LastDot(moduleName + "." + className) == Some(|moduleName|)
  {
    var s := moduleName + "." + className;
    if |className| > 0 {
      var shorter := className[..|className| - 1];
      assert s[..|s| - 1] == moduleName + "." + shorter;
      assert s[|s| - 1] == className[|className| - 1];
      LastDotOfJoin(moduleName, shorter);
    }
  }

  /** Joining a module path and a dot-free class name, then splitting, gives the two parts back. */
  lemma JoinThenSplit(moduleName: string, className: string)
    requires '.' !in className
    ensures SplitName(moduleName + "." + className) == Success((moduleName, className))
  {
    var s := moduleName + "." + className;
    LastDotOfJoin(moduleName, className);
    assert s[..|moduleName|] == moduleName;
    assert s[|moduleName| + 1..] == className;
  }

  /** A name resolves when it splits and `load` finds the class it names. */
  predicate Resolvable<S>(name: string, load: ((string, string)) -> Option<S>) {
    SplitName(name).Success? && load(SplitName(name).value).Some?
  }

  /** The error the resolution of a name that does not resolve raises. */
  function ErrorOf<S>(name: string, load: ((string, string)) -> Option<S>): ConfigError {
    match SplitName(name)
    case Failure(e) => e
    case Success(parts) => Unresolvable(name)
  }

  /**
   * Resolve every configured name in order into a spider, stopping at the
   * first name that cannot be split or loaded.
   */
  method ResolveSpiders<S>(names: seq<string>, load: ((string, string)) -> Option<S>)
    returns (res: Result<seq<S>, ConfigError>)
    ensures res.Success? <==> forall i :: 0 <= i < |names| ==> Resolvable(names[i], load)
    ensures res.Success? ==> |res.value| == |names|
    ensures res.Success? ==> forall i :: 0 <= i < |names| ==>
      load(SplitName(names[i]).value) == Some(res.value[i])
    ensures res.Failure? ==> exists k ::
      && 0 <= k < |names| && !Resolvable(names[k], load)
      && (forall i :: 0 <= i < k ==> Resolvable(names[i], load))
      && res.error == ErrorOf(names[k], load)
  {
    var spiders: seq<S> := [];
    var i := 0;
    while i < |names|
      invariant 0 <= i <= |names| && |spiders| == i
      invariant forall j :: 0 <= j < i ==> Resolvable(names[j], load)
      invariant forall j :: 0 <= j < i ==> load(SplitName(names[j]).value) == Some(spiders[j])
    {
      var split := SplitName(names[i]);
      if split.Failure? {
        return Failure(split.error);
      }
      var spider := load(split.value);
      if spider.None? {
        return Failure(Unresolvable(names[i]));
      }
      spiders := spiders + [spider.value];
      i := i + 1;
    }
    return Success(spiders);
  }
}
