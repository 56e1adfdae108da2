/**
 Worked cases of the target-triple translation: the spellings and renderings
 of particular triples, each derived from the general lemmas.
 */
module TargetTripleCases {
  import opened Strings
  import opened TargetTriples

  /**
   A triple with a single `nixos`, in which no other occurrence of it starts,
   gets `linux` in its place and keeps everything around it.
   */
  lemma SingleNixos(a: string, b: string)
    requires !Contains(a + "nixo", "nixos") && !Contains(b, "nixos")
    ensures FromBazel(a + ("nixos" + b)).ToCargo() == a + ("linux" + b)
  {
    assert "nixos"[..4] == "nixo";
    ReplaceOnce(a, "nixos", b, "linux");
    ContainsInside(a, "nixos", b);
    ToCargoNixos(a + ("nixos" + b));
  }

  /**
   A triple without `nixos` and with a single `drive_linux`, in which no other
   occurrence of it starts, gets `linux` in its place and keeps everything
   around it.
   */
  lemma SingleDriveLinux(a: string, b: string)
    requires !Contains(a + "drive_linu", "drive_linux") && !Contains(b, "drive_linux")
    requires !Contains(a + ("drive_linux" + b), "nixos")
    ensures FromBazel(a + ("drive_linux" + b)).ToCargo() == a + ("linux" + b)
  {
    assert "drive_linux"[..10] == "drive_linu";
    ReplaceOnce(a, "drive_linux", b, "linux");
    ContainsInside(a, "drive_linux", b);
    ToCargoDriveLinux(a + ("drive_linux" + b));
  }

  /** `SingleNixos` for a prefix and suffix without the letter `s`. */
  lemma SingleNixosWithoutS(a: string, b: string)
    requires 's' !in a && 's' !in b
    ensures FromBazel(a + ("nixos" + b)).ToCargo() == a + ("linux" + b)
  {
    MissingChar(a + "nixo", "nixos", 's');
    MissingChar(b, "nixos", 's');
    SingleNixos(a, b);
  }

  /** `SingleDriveLinux` for a prefix without `x` and a suffix without `d`, neither holding `s`. */
  lemma SingleDriveLinuxByLetters(a: string, b: string)
    requires 'x' !in a && 'd' !in b && 's' !in a && 's' !in b
    ensures FromBazel(a + ("drive_linux" + b)).ToCargo() == a + ("linux" + b)
  {
    MissingChar(a + "drive_linu", "drive_linux", 'x');
    MissingChar(b, "drive_linux", 'd');
    MissingChar(a + ("drive_linux" + b), "nixos", 's');
    SingleDriveLinux(a, b);
  }

  lemma NixosExample(s: string)
    requires s == "x86_64-unknown-nixos-gnu"
    ensures FromBazel(s).ToCargo() == "x86_64-unknown-linux-gnu"
  {
    assert s == "x86_64-unknown-" + ("nixos" + "-gnu");
    assert "x86_64-unknown-" + ("linux" + "-gnu") == "x86_64-unknown-linux-gnu";
    SingleNixosWithoutS("x86_64-unknown-", "-gnu");
  }

  lemma NixosRenderExample(s: string)
    requires s == "x86_64-unknown-nixos-gnu"
    ensures FromBazel(s).Render() == "x86_64-unknown-nixos-gnu (cargo: x86_64-unknown-linux-gnu)"
  {
    NixosExample(s);
    var c := FromBazel(s).ToCargo();
    assert c[15] != s[15];
    RenderLabelled(FromBazel(s));
    NixosRenderText(s, c);
  }

  lemma NixosRenderText(s: string, c: string)
    requires s == "x86_64-unknown-nixos-gnu" && c == "x86_64-unknown-linux-gnu"
    ensures s + " (cargo: " + c + ")" == "x86_64-unknown-nixos-gnu (cargo: x86_64-unknown-linux-gnu)"
  {
  }

  lemma DriveLinuxExample(s: string)
    requires s == "aarch64-unknown-drive_linux-gnu"
    ensures FromBazel(s).ToCargo() == "aarch64-unknown-linux-gnu"
  {
    assert s == "aarch64-unknown-" + ("drive_linux" + "-gnu");
    assert "aarch64-unknown-" + ("linux" + "-gnu") == "aarch64-unknown-linux-gnu";
    SingleDriveLinuxByLetters("aarch64-unknown-", "-gnu");
  }

  /** Both aliases present: only the `nixos` rule is applied, `drive_linux` stays. */
  lemma BothAliasesExample(s: string)
    requires s == "nixos-drive_linux"
    ensures FromBazel(s).ToCargo() == "linux-drive_linux"
  {
    assert s == [] + ("nixos" + "-drive_linux");
    assert [] + ("linux" + "-drive_linux") == "linux-drive_linux";
    SingleNixosWithoutS([], "-drive_linux");
  }

  lemma LinuxExample(s: string)
    requires s == "x86_64-unknown-linux-gnu"
    ensures FromBazel(s).ToCargo() == s
    ensures FromBazel(s).Render() == s
  {
    LinuxHasNoAlias(s);
    ToCargoWithoutAlias(s);
    RenderPlainIffSame(FromBazel(s));
  }

  lemma LinuxHasNoAlias(s: string)
    requires 's' !in s && 'd' !in s
    ensures !Contains(s, "nixos") && !Contains(s, "drive_linux")
  {
    MissingChar(s, "nixos", 's');
    MissingChar(s, "drive_linux", 'd');
  }
}
