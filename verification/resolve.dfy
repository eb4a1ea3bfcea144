/** `get_unleash_path` / `find_unleash_executable`: where the application's
    executable is looked for, against an abstract "this path exists" test. */
module Resolve {
  import opened Results

  const ProgramFilesX86Path := "C:\\Program Files (x86)\\EVGA\\Unleash RGB\\UnleashRGB.exe"
  const ProgramFilesPath := "C:\\Program Files\\EVGA\\Unleash RGB\\UnleashRGB.exe"

  /** The known install locations, in the order they are probed. */
  const CommonPaths := [ProgramFilesX86Path, ProgramFilesPath]

  /** The position of the first path in `paths` that exists, or `|paths|`
      when none does. */
  function FirstExistingIndex(paths: seq<string>, pathExists: string -> bool): (k: nat)
    ensures k <= |paths|
    ensures forall j :: 0 <= j < k ==> !pathExists(paths[j])
    ensures k < |paths| ==> pathExists(paths[k])
    decreases |paths|
  {
    if |paths| == 0 then 0
    else if pathExists(paths[0]) then 0
    else 1 + FirstExistingIndex(paths[1..], pathExists)
  }

  /** The first path of `paths` that exists. */
  function FirstExisting(paths: seq<string>, pathExists: string -> bool): Option<string>
  {
    var k := FirstExistingIndex(paths, pathExists);
    if k < |paths| then Some(paths[k]) else None
  }

  /** `find_unleash_executable`: the loop over the known install paths. */
  function FindUnleashExecutable(pathExists: string -> bool): (r: Option<string>)
    ensures r.Some? ==> r.value in CommonPaths && pathExists(r.value)
    ensures r.Some? && r.value == ProgramFilesPath ==> !pathExists(ProgramFilesX86Path)
    ensures r.None? <==> !pathExists(ProgramFilesX86Path) && !pathExists(ProgramFilesPath)
  {
    if pathExists(CommonPaths[0]) then Some(CommonPaths[0])
    else if pathExists(CommonPaths[1]) then Some(CommonPaths[1])
    else None
  }

  /** The re-prompt loop: the answers the user types, in order, are tried
      until one exists. `None` means the answers ran out while the program was
      still prompting. */
  function PromptUntilFound(answers: seq<string>, pathExists: string -> bool): (r: Option<string>)
    ensures r.Some? ==> pathExists(r.value) && r.value in answers
    ensures r.None? <==> forall j :: 0 <= j < |answers| ==> !pathExists(answers[j])
    decreases |answers|
  {
    if |answers| == 0 then None
    else if pathExists(answers[0]) then Some(answers[0])
    else PromptUntilFound(answers[1..], pathExists)
  }

  /** `get_unleash_path(user_provided_path)`: the user-supplied path, then
      the install paths, then whatever the user types at the prompt. */
  function GetUnleashPath(userPath: string, pathExists: string -> bool, answers: seq<string>): (r: Option<string>)
    ensures r.Some? ==> pathExists(r.value)
    ensures pathExists(userPath) ==> r == Some(userPath)
  {
    if pathExists(userPath) then Some(userPath)
    else
      match FindUnleashExecutable(pathExists)
      case Some(p) => Some(p)
      case None => PromptUntilFound(answers, pathExists)
  }

  /** The resolution order: the result is the first existing path of the user
      path, the two install paths and the typed answers, in that order; the
      prompt is reached only when none of the first three exists. */
  lemma {:induction false} ResolutionOrder(userPath: string, pathExists: string -> bool, answers: seq<string>)
    ensures GetUnleashPath(userPath, pathExists, answers)
            == FirstExisting([userPath] + CommonPaths + answers, pathExists)
  {
    var paths := [userPath] + CommonPaths + answers;
    assert paths[0] == userPath && paths[1] == ProgramFilesX86Path && paths[2] == ProgramFilesPath;
    assert paths[3..] == answers;
    if !pathExists(userPath) && !pathExists(ProgramFilesX86Path) && !pathExists(ProgramFilesPath) {
      PromptIsFirstExisting(answers, pathExists);
      assert paths[1..][1..][1..] == answers;
      assert FirstExistingIndex(paths, pathExists) == 3 + FirstExistingIndex(answers, pathExists);
    }
  }

  lemma {:induction false} PromptIsFirstExisting(answers: seq<string>, pathExists: string -> bool)
    ensures PromptUntilFound(answers, pathExists) == FirstExisting(answers, pathExists)
    decreases |answers|
  {
    if |answers| > 0 && !pathExists(answers[0]) {
      PromptIsFirstExisting(answers[1..], pathExists);
    }
  }
}
