/**
  Shell selection: the default shell of a platform and the arguments
  that make a shell run one command line.
 */
module Shell {
  import opened Strings

  /** `process.env.KEY || fallback`: a missing or empty variable falls back. */
  function EnvOr(env: map<string, string>, key: string, fallback: string): (r: string)
    ensures r != "" <== fallback != ""
    ensures key in env && env[key] != "" ==> r == env[key]
    ensures (key !in env || env[key] == "") ==> r == fallback
  {
    if key in env && env[key] != "" then env[key] else fallback
  }

  /** `getDefaultShell`: COMSPEC on Windows, SHELL elsewhere, each with a fixed fallback. */
  function DefaultShell(platform: string, env: map<string, string>): (r: string)
    ensures r != ""
    ensures platform == "win32" ==> r == EnvOr(env, "COMSPEC", "cmd.exe")
    ensures platform != "win32" ==> r == EnvOr(env, "SHELL", "/bin/bash")
  {
    if platform == "win32" then EnvOr(env, "COMSPEC", "cmd.exe")
    else EnvOr(env, "SHELL", "/bin/bash")
  }

  /** The shell families `getShellArgs` distinguishes, by substring of the lower-cased path. */
  predicate IsCmdFamily(shell: string) {
    var lower := ToLower(shell);
    Contains(lower, "cmd.exe") || Contains(lower, "cmd")
  }

  predicate IsPowerShellFamily(shell: string) {
    var lower := ToLower(shell);
    Contains(lower, "powershell") || Contains(lower, "pwsh")
  }

  /**
    `getShellArgs`: always two arguments, the command last; the switch is
    `/c` for the cmd family, else `-Command` for PowerShell, else `-c`.
   */
  function ShellArgs(shell: string, command: string): (r: seq<string>)
    ensures |r| == 2 && r[1] == command
    ensures r[0] == "/c" <==> IsCmdFamily(shell)
    ensures r[0] == "-Command" <==> !IsCmdFamily(shell) && IsPowerShellFamily(shell)
    ensures r[0] == "-c" <==> !IsCmdFamily(shell) && !IsPowerShellFamily(shell)
  {
    if IsCmdFamily(shell) then ["/c", command]
    else if IsPowerShellFamily(shell) then ["-Command", command]
    else ["-c", command]
  }

  /** The "cmd.exe" test is subsumed by the "cmd" test: any path mentioning cmd, in any case, is the cmd family. */
  lemma CmdFamilyIsSubstringCmd(shell: string)
    ensures IsCmdFamily(shell) <==> exists i :: OccursAt(ToLower(shell), "cmd", i)
  {
    var lower := ToLower(shell);
    ContainsIff(lower, "cmd");
    ContainsIff(lower, "cmd.exe");
    if Contains(lower, "cmd.exe") {
      var i :| OccursAt(lower, "cmd.exe", i);
      assert lower[i..i + 3] == lower[i..i + 7][..3];
      assert OccursAt(lower, "cmd", i);
    }
  }

  /** Running with the platform default: Windows without COMSPEC uses `/c`, elsewhere without SHELL uses `-c`. */
  lemma DefaultShellArgs(platform: string, env: map<string, string>, command: string)
    ensures platform == "win32" && "COMSPEC" !in env ==> ShellArgs(DefaultShell(platform, env), command) == ["/c", command]
    ensures platform != "win32" && "SHELL" !in env ==> ShellArgs(DefaultShell(platform, env), command) == ["-c", command]
  {
    CmdExeIsCmdFamily();
    BinBashIsPosixFamily();
  }

  lemma CmdExeIsCmdFamily()
    ensures IsCmdFamily("cmd.exe")
  {
    var lower := ToLower("cmd.exe");
    assert lower == "cmd.exe" by {
      forall i | 0 <= i < 7 ensures lower[i] == "cmd.exe"[i] { }
    }
    assert StartsWith(lower, "cmd.exe");
  }

  lemma BinBashIsPosixFamily()
    ensures !IsCmdFamily("/bin/bash") && !IsPowerShellFamily("/bin/bash")
  {
    var lower := ToLower("/bin/bash");
    assert 'c' !in lower && 'p' !in lower by {
      forall i | 0 <= i < 9 ensures lower[i] == "/bin/bash"[i] { }
    }
    NeitherFamily("/bin/bash");
  }

  /** A path whose lower-cased form has no `c` and no `p` belongs to neither the cmd nor the PowerShell family. */
  lemma NeitherFamily(shell: string)
    requires 'c' !in ToLower(shell) && 'p' !in ToLower(shell)
    ensures !IsCmdFamily(shell) && !IsPowerShellFamily(shell)
  {
    var lower := ToLower(shell);
    MissingHeadNotContained(lower, "cmd");
    MissingHeadNotContained(lower, "cmd.exe");
    MissingHeadNotContained(lower, "powershell");
    MissingHeadNotContained(lower, "pwsh");
  }
}
