/**
 * The roots of configuration targets, and the way back from a target to the repository. A root is
 * written by a person, normalized once, and then used to find the configuration that names it,
 * so what it denotes must not change on the way.
 */
module TargetRoots {
  import opened Options
  import opened PathText

  datatype Result<T> = Ok(value: T) | Err(error: RootError)

  datatype RootError = NotRelative | EscapesRepository

  const DEFAULT_ROOT := "."

  function WithSlashes(value: string): (slashed: string)
    ensures |slashed| == |value|
    ensures forall i :: 0 <= i < |value| ==> slashed[i] == if value[i] == '\\' then '/' else value[i]
  {
    seq(|value|, i requires 0 <= i < |value| => if value[i] == '\\' then '/' else value[i])
  }

  /** A leading separator or a drive such as `C:`. */
  predicate IsAnchored(value: string) {
    (value != [] && WithSlashes(value)[0] == '/') || HasDrive(value)
  }

  predicate HasDrive(value: string) {
    |value| >= 2 && value[1] == ':'
  }

  /** The parts of a relative value, either separator taken for a slash. */
  function PartsOf(value: string): seq<string> {
    PosixParts(WithSlashes(value))
  }

  // ---------- What a relative root denotes ----------

  function Ups(parts: seq<string>): nat {
    if parts == [] then 0 else Ups(parts[..|parts| - 1]) + if parts[|parts| - 1] == ".." then 1 else 0
  }

  /** Some prefix goes up more often than down. */
  ghost predicate Ascends(parts: seq<string>) {
    exists k :: 0 <= k <= |parts| && Above(parts[..k])
  }

  predicate Above(parts: seq<string>) {
    2 * Ups(parts) > |parts|
  }

  /** The directory that `parts` lead to from the repository, if they stay in it. */
  function Walk(parts: seq<string>): Option<seq<string>> {
    if parts == [] then Some([])
    else
      var last := parts[|parts| - 1];
      match Walk(parts[..|parts| - 1])
      case None => None
      case Some(at) =>
        if last != ".." then Some(at + [last])
        else if at == [] then None
        else Some(at[..|at| - 1])
  }

  lemma {:induction false} WalkDepth(parts: seq<string>)
    ensures Walk(parts).Some? ==> |Walk(parts).value| == |parts| - 2 * Ups(parts)
    ensures Walk(parts).Some? ==> var at := Walk(parts).value;
      forall i :: 0 <= i < |at| ==> at[i] in parts && at[i] != ".."
  {
    if parts != [] {
      WalkDepth(parts[..|parts| - 1]);
    }
  }

  /** The walk leaves the repository exactly when some prefix goes up more often than down. */
  lemma {:induction false} WalkFailsExactly(parts: seq<string>)
    ensures Walk(parts).None? <==> Ascends(parts)
  {
    if parts == [] {
      assert !Above(parts[..0]);
    } else {
      var init := parts[..|parts| - 1];
      WalkFailsExactly(init);
      WalkDepth(init);
      assert parts[..|parts|] == parts;
      assert forall k :: 0 <= k <= |init| ==> init[..k] == parts[..k];
      assert Ascends(parts) <==> Ascends(init) || Above(parts);
    }
  }

  function Spelled(parts: seq<string>): string {
    if parts == [] then DEFAULT_ROOT else Joined(parts)
  }

  /** The root that a value means. */
  function Normalized(value: string): Result<string> {
    if IsAnchored(value) then Err(NotRelative)
    else
      match Walk(PartsOf(value))
      case None => Err(EscapesRepository)
      case Some(parts) => Ok(Spelled(parts))
  }

  // ---------- The loops ----------

  lemma WalkNext(parts: seq<string>, i: nat, at: seq<string>)
    requires i < |parts| && Walk(parts[..i]) == Some(at)
    ensures Walk(parts[..i + 1])
         == if parts[i] != ".." then Some(at + [parts[i]]) else if at == [] then None else Some(at[..|at| - 1])
  {
    assert parts[..i + 1][..i] == parts[..i];
  }

  method NormalizeTargetRoot(value: string) returns (result: Result<string>)
    ensures result == Normalized(value)
    ensures result == Err(NotRelative) <==> "/" <= value || "\\" <= value || (|value| >= 2 && value[1] == ':')
  {
    if IsAnchored(value) {
      return Err(NotRelative);
    }
    var configured := PartsOf(value);
    var parts := [];
    for i := 0 to |configured|
      invariant Walk(configured[..i]) == Some(parts)
    {
      WalkNext(configured, i, parts);
      if configured[i] == ".." {
        if parts == [] {
          OutsideStaysOutside(configured, i + 1);
          return Err(EscapesRepository);
        }
        parts := parts[..|parts| - 1];
      } else {
        parts := parts + [configured[i]];
      }
    }
    assert configured[..|configured|] == configured;
    return Ok(if parts == [] then DEFAULT_ROOT else Joined(parts));
  }

  lemma {:induction false} OutsideStaysOutside(parts: seq<string>, k: nat)
    requires k <= |parts| && Walk(parts[..k]).None?
    ensures Walk(parts).None?
    decreases |parts|
  {
    if k == |parts| {
      assert parts[..k] == parts;
    } else {
      assert parts[..|parts| - 1][..k] == parts[..k];
      OutsideStaysOutside(parts[..|parts| - 1], k);
    }
  }

  /** `directory.parent`: the root is its own parent. */
  function Parent(directory: seq<string>): seq<string> {
    if directory == [] then [] else directory[..|directory| - 1]
  }

  /** `Path(value).parts` on a POSIX system: a leading slash is a part, a backslash is a character. */
  function PathParts(value: string): seq<string> {
    (if value != "" && value[0] == '/' then [PathRoot(value)] else []) + PosixParts(value)
  }

  /** Exactly two leading slashes are a root of their own. */
  function PathRoot(value: string): (root: string)
    requires value != "" && value[0] == '/'
    ensures root == if "//" <= value && !("///" <= value) then "//" else "/"
  {
    if |value| > 1 && value[1] == '/' && !(|value| > 2 && value[2] == '/') then "//" else "/"
  }

  /** The loop over the parts of any root ascends once for each, and stops at the top. */
  method ConfigurationDirectory(projectRoot: seq<string>, targetRoot: string) returns (directory: seq<string>)
    ensures |PathParts(targetRoot)| <= |projectRoot| ==>
              directory == projectRoot[..|projectRoot| - |PathParts(targetRoot)|]
    ensures |PathParts(targetRoot)| > |projectRoot| ==> directory == []
  {
    directory := projectRoot;
    var parts := PathParts(targetRoot);
    for i := 0 to |parts|
      invariant directory == projectRoot[..if i <= |projectRoot| then |projectRoot| - i else 0]
    {
      directory := Parent(directory);
    }
  }

  // ---------- Normal roots ----------

  lemma {:induction false} KeptAll(parts: seq<string>)
    requires forall i :: 0 <= i < |parts| ==> parts[i] != "" && parts[i] != "."
    ensures Kept(parts) == parts
  {
    if parts != [] {
      KeptAll(parts[1..]);
    }
  }

  /** A part of a normal path. */
  predicate IsName(part: string) {
    part != "" && part != "." && part != ".." && '/' !in part && '\\' !in part
  }

  predicate AreNames(parts: seq<string>) {
    forall i :: 0 <= i < |parts| ==> IsName(parts[i])
  }

  lemma {:induction false} JoinedCharacters(parts: seq<string>)
    requires parts != [] && AreNames(parts)
    ensures '\\' !in Joined(parts)
    ensures Joined(parts) != "" && Joined(parts)[0] != '/'
  {
    if |parts| > 1 {
      JoinedCharacters(parts[1..]);
    }
  }

  lemma SlashesStay(value: string)
    requires '\\' !in value
    ensures WithSlashes(value) == value
  {
  }

  lemma PartsOfSpelled(parts: seq<string>)
    requires AreNames(parts)
    ensures PartsOf(Spelled(parts)) == parts && PathParts(Spelled(parts)) == parts
    ensures Spelled(parts) != "" && Spelled(parts)[0] != '/' && Spelled(parts)[0] != '\\'
  {
    if parts == [] {
      SlashesStay(DEFAULT_ROOT);
      SegmentsOne(DEFAULT_ROOT);
    } else {
      JoinedCharacters(parts);
      SlashesStay(Joined(parts));
      SegmentsOfJoined(parts);
      KeptAll(parts);
    }
  }

  lemma PartsHaveNoSeparators(value: string)
    ensures forall part | part in PartsOf(value) :: '/' !in part && '\\' !in part && part != "" && part != "."
  {
    var slashed := WithSlashes(value);
    KeptParts(Segments(slashed));
    JoinedSegments(slashed);
    SegmentsKeepCharacters(slashed, '\\');
  }

  lemma {:induction false} WalkOfNames(parts: seq<string>)
    requires forall i :: 0 <= i < |parts| ==> parts[i] != ".."
    ensures Walk(parts) == Some(parts)
  {
    if parts != [] {
      WalkOfNames(parts[..|parts| - 1]);
      assert parts == parts[..|parts| - 1] + [parts[|parts| - 1]];
    }
  }

  /**
   * A relative value is refused exactly when it ascends above the repository; otherwise the root is `.`
   * or a path of proper names, the directory that the value leads to.
   */
  lemma NormalizedMeaning(value: string)
    requires !IsAnchored(value)
    ensures Normalized(value) == Err(EscapesRepository) <==> Ascends(PartsOf(value))
    ensures Normalized(value).Ok? ==> var root := Normalized(value).value;
      && Walk(PartsOf(value)) == Some(PartsOf(root))
      && (root == "." || (PartsOf(root) != [] && root == Joined(PartsOf(root))))
      && AreNames(PartsOf(root)) && PathParts(root) == PartsOf(root)
  {
    WalkFailsExactly(PartsOf(value));
    if Normalized(value).Ok? {
      WalkDepth(PartsOf(value));
      PartsHaveNoSeparators(value);
      PartsOfSpelled(Walk(PartsOf(value)).value);
    }
  }

  /** Normalizing a root again changes nothing, except that a root such as `c:d` now reads as a drive. */
  lemma FixedPointExactly(value: string)
    requires Normalized(value).Ok?
    ensures var root := Normalized(value).value;
      && (Normalized(root) == Ok(root) <==> !HasDrive(root))
      && (HasDrive(root) ==> Normalized(root) == Err(NotRelative))
  {
    WalkDepth(PartsOf(value));
    PartsHaveNoSeparators(value);
    var parts := Walk(PartsOf(value)).value;
    PartsOfSpelled(parts);
    WalkOfNames(parts);
  }

  lemma {:induction false} WalkFromTheTop(before: seq<string>, parts: seq<string>)
    requires Walk(before) == Some([])
    ensures Walk(before + parts) == Walk(parts)
  {
    if parts == [] {
      assert before + parts == before;
    } else {
      assert (before + parts)[..|before + parts| - 1] == before + parts[..|parts| - 1];
      WalkFromTheTop(before, parts[..|parts| - 1]);
    }
  }

  /** Going up undoes the last step down: what leads into a directory and back out again may be left out. */
  lemma {:induction false} DetoursCancel(before: seq<string>, name: string, rest: seq<string>)
    requires name != ".."
    ensures Walk(before + [name, ".."] + rest) == Walk(before + rest)
    decreases |rest|
  {
    if rest == [] {
      var detour := before + [name, ".."];
      assert detour + [] == detour && before + [] == before;
      assert detour[..|detour| - 1] == before + [name] && (before + [name])[..|before|] == before;
    } else {
      var n := |rest| - 1;
      var whole, direct := before + [name, ".."] + rest, before + rest;
      assert whole[..|whole| - 1] == before + [name, ".."] + rest[..n] && direct[..|direct| - 1] == before + rest[..n];
      DetoursCancel(before, name, rest[..n]);
    }
  }

  lemma DetourWalks(name: string)
    requires IsName(name)
    ensures Walk([name, ".."]) == Some([])
  {
    assert [name, ".."][..1] == [name] && [name][..0] == [];
    assert Walk([name]) == Some([] + [name]);
  }

  lemma DetourParts(name: string, parts: seq<string>)
    requires IsName(name) && parts != [] && AreNames(parts)
    ensures PartsOf(Joined([name, ".."] + parts)) == [name, ".."] + parts
  {
    var detour := [name, ".."] + parts;
    SegmentsOfJoined(detour);
    KeptAll(detour);
    DetourHasNoBackslash(name, parts);
    SlashesStay(Joined(detour));
  }

  lemma DetourHasNoBackslash(name: string, parts: seq<string>)
    requires IsName(name) && parts != [] && AreNames(parts)
    ensures '\\' !in Joined([name, ".."] + parts)
  {
    DetourText(name, parts);
    JoinedCharacters(parts);
  }

  lemma DetourText(name: string, parts: seq<string>)
    requires parts != []
    ensures Joined([name, ".."] + parts) == name + "/" + (".." + "/" + Joined(parts))
  {
    assert ([name, ".."] + parts)[1..] == [".."] + parts && ([".."] + parts)[1..] == parts;
  }

  /** A detour such as `a/../c:d` is accepted, and its root `c:d` is refused when it is normalized again. */
  lemma DriveAppears(name: string, parts: seq<string>)
    requires IsName(name) && !HasDrive(name) && parts != [] && AreNames(parts) && HasDrive(Joined(parts))
    ensures Normalized(Joined([name, ".."] + parts)) == Ok(Joined(parts))
    ensures Normalized(Joined(parts)) == Err(NotRelative)
  {
    var value := Joined([name, ".."] + parts);
    DetourText(name, parts);
    assert value[0] == name[0];
    DetourParts(name, parts);
    DetourWalks(name);
    WalkFromTheTop([name, ".."], parts);
    WalkOfNames(parts);
  }

  /** Ascending from the target's directory by its root returns to the repository. */
  method ReturnToRepository(repository: seq<string>, value: string) returns (directory: Option<seq<string>>)
    ensures directory.Some? <==> Normalized(value).Ok?
    ensures directory.Some? ==> directory.value == repository
  {
    var root := NormalizeTargetRoot(value);
    if root.Err? {
      return None;
    }
    NormalizedMeaning(value);
    var projectRoot := repository + PartsOf(root.value);
    var ascended := ConfigurationDirectory(projectRoot, root.value);
    assert projectRoot[..|repository|] == repository;
    return Some(ascended);
  }
}
