/**
 A platform triple as the build system spells it, and the two views of it the
 dependency resolver needs: the build-system (Bazel) spelling, kept verbatim,
 and the Cargo spelling, in which the operating-system aliases that only the
 build system knows (`nixos`, `drive_linux`) are rewritten to `linux`.
 */
module TargetTriples {
  import opened Strings

  /** The result of comparing two values of a total order. */
  datatype Ordering = Less | Equal | Greater

  /**
   Ordered (alias, canonical) rewrite rules for the Cargo spelling.  Earlier
   rules take priority: only the first rule whose alias occurs is applied.
   */
  const TargetMapping: seq<(string, string)> := [("nixos", "linux"), ("drive_linux", "linux")]

  /** Every alias of the table is a non-empty pattern. */
  ghost predicate WellFormedTable(table: seq<(string, string)>) {
    forall k :: 0 <= k < |table| ==> table[k].0 != []
  }

  /** Rule `k` of `table` is the first rule whose alias occurs in `s`. */
  ghost predicate FirstMatch(table: seq<(string, string)>, s: string, k: int) {
    && 0 <= k < |table|
    && Contains(s, table[k].0)
    && forall j :: 0 <= j < k ==> !Contains(s, table[j].0)
  }

  /** No alias of `table` occurs in `s`. */
  ghost predicate NoMatch(table: seq<(string, string)>, s: string) {
    forall k :: 0 <= k < |table| ==> !Contains(s, table[k].0)
  }

  /**
   Walks the rules in order; the first rule whose alias occurs anywhere in `s`
   has every occurrence of its alias replaced by its canonical name, and the
   walk stops there.  When no alias occurs, `s` is returned unchanged.
   */
  function Remap(table: seq<(string, string)>, s: string): (r: string)
    requires WellFormedTable(table)
    ensures forall k :: FirstMatch(table, s, k) ==> r == ReplaceAll(s, table[k].0, table[k].1)
    ensures NoMatch(table, s) ==> r == s
    decreases |table|
  {
    if table == [] then s
    else if Contains(s, table[0].0) then ReplaceAll(s, table[0].0, table[0].1)
    else
      var r := Remap(table[1..], s);
      assert forall k :: FirstMatch(table, s, k) ==> k > 0 && FirstMatch(table[1..], s, k - 1);
      assert NoMatch(table, s) ==> NoMatch(table[1..], s);
      r
  }

  /** A target triple; equality is equality of the stored build-system string. */
  datatype TargetTriple = TargetTriple(bazel: string) {

    /** The build-system spelling, unchanged. */
    function ToBazel(): string {
      bazel
    }

    /** The spelling for `rustc` and `cargo metadata`. */
    function ToCargo(): string {
      Remap(TargetMapping, bazel)
    }

    /**
     The human-readable form: the build-system spelling alone when both
     spellings agree, otherwise both spellings with the Cargo one labelled.
     */
    function Render(): string {
      var bazel := ToBazel();
      var cargo := ToCargo();
      if bazel == cargo then bazel else bazel + " (cargo: " + cargo + ")"
    }

    /** The derived ordering: lexicographic on the stored strings. */
    function Cmp(other: TargetTriple): Ordering {
      LexCompare(bazel, other.bazel)
    }
  }

  /** Wraps a build-system spelling verbatim; any string, the empty one included, is accepted. */
  function FromBazel(bazel: string): (t: TargetTriple)
    ensures t.ToBazel() == bazel
  {
    TargetTriple(bazel)
  }

  /** Lexicographic comparison of strings: the order of Rust's `String`. */
  function LexCompare(a: string, b: string): Ordering
    decreases |a|
  {
    if a == [] then (if b == [] then Equal else Less)
    else if b == [] then Greater
    else if a[0] < b[0] then Less
    else if a[0] > b[0] then Greater
    else LexCompare(a[1..], b[1..])
  }

  function Reverse(o: Ordering): Ordering {
    match o
    case Less => Greater
    case Equal => Equal
    case Greater => Less
  }

  // ---------------------------------------------------------------------------
  // The Cargo spelling

  /** A triple without either alias keeps its spelling for Cargo. */
  lemma ToCargoWithoutAlias(s: string)
    requires !Contains(s, "nixos") && !Contains(s, "drive_linux")
    ensures FromBazel(s).ToCargo() == s
  {
    assert NoMatch(TargetMapping, s);
  }

  /** A triple containing `nixos` has every `nixos` rewritten, and only that rule applies. */
  lemma ToCargoNixos(s: string)
    requires Contains(s, "nixos")
    ensures FromBazel(s).ToCargo() == ReplaceAll(s, "nixos", "linux")
  {
    assert FirstMatch(TargetMapping, s, 0);
  }

  /** A triple containing `drive_linux` but not `nixos` has every `drive_linux` rewritten. */
  lemma ToCargoDriveLinux(s: string)
    requires !Contains(s, "nixos") && Contains(s, "drive_linux")
    ensures FromBazel(s).ToCargo() == ReplaceAll(s, "drive_linux", "linux")
  {
    assert FirstMatch(TargetMapping, s, 1);
  }

  /** The Cargo spelling differs from the build-system one exactly when an alias occurs. */
  lemma {:induction false} ToCargoChangesIffAlias(s: string)
    ensures FromBazel(s).ToCargo() != s <==> Contains(s, "nixos") || Contains(s, "drive_linux")
  {
    if Contains(s, "nixos") {
      ToCargoNixos(s);
      ReplaceAllWithMatch(s, "nixos", "linux");
    } else if Contains(s, "drive_linux") {
      ToCargoDriveLinux(s);
      ReplaceAllWithMatch(s, "drive_linux", "linux");
    } else {
      ToCargoWithoutAlias(s);
    }
  }

  // ---------------------------------------------------------------------------
  // Rendering

  /** The rendering is the bare build-system spelling exactly when the two spellings agree. */
  lemma RenderPlainIffSame(t: TargetTriple)
    ensures t.Render() == t.ToBazel() <==> t.ToCargo() == t.ToBazel()
  {
  }

  /** When the spellings differ, the rendering shows both, the Cargo one labelled. */
  lemma RenderLabelled(t: TargetTriple)
    requires t.ToCargo() != t.ToBazel()
    ensures t.Render() == t.ToBazel() + " (cargo: " + t.ToCargo() + ")"
  {
  }

  /** The rendering carries the Cargo label exactly when the triple contains an alias. */
  lemma RenderLabelledIffAlias(s: string)
    ensures FromBazel(s).Render() != s <==> Contains(s, "nixos") || Contains(s, "drive_linux")
  {
    ToCargoChangesIffAlias(s);
    RenderPlainIffSame(FromBazel(s));
  }

  /**
   Reads the Cargo spelling back out of a rendering, given the build-system
   spelling it starts with.
   */
  function CargoOfRendering(bazel: string, rendered: string): string {
    if rendered == bazel then bazel
    else if |bazel| + 9 <= |rendered| - 1 then rendered[|bazel| + 9..|rendered| - 1]
    else rendered
  }

  /** A rendering starts with the build-system spelling and loses nothing of the Cargo one. */
  lemma RenderRoundTrip(t: TargetTriple)
    ensures t.ToBazel() <= t.Render()
    ensures CargoOfRendering(t.ToBazel(), t.Render()) == t.ToCargo()
  {
    var bazel, cargo := t.ToBazel(), t.ToCargo();
    if bazel != cargo {
      var r := bazel + " (cargo: " + cargo + ")";
      assert r[|bazel| + 9..|r| - 1] == cargo;
    }
  }

  // ---------------------------------------------------------------------------
  // Ordering and equality

  /** Lexicographic comparison says `Equal` exactly for equal strings. */
  lemma {:induction false} LexCompareEqualIff(a: string, b: string)
    ensures LexCompare(a, b) == Equal <==> a == b
    decreases |a|
  {
    if a != [] && b != [] && a[0] == b[0] {
      LexCompareEqualIff(a[1..], b[1..]);
      if a[1..] == b[1..] {
        assert a == [a[0]] + a[1..];
        assert b == [b[0]] + b[1..];
      }
    }
  }

  /** Swapping the operands reverses the comparison. */
  lemma {:induction false} LexCompareReverse(a: string, b: string)
    ensures LexCompare(b, a) == Reverse(LexCompare(a, b))
    decreases |a|
  {
    if a != [] && b != [] && a[0] == b[0] {
      LexCompareReverse(a[1..], b[1..]);
    }
  }

  /** `Less` is transitive. */
  lemma {:induction false} LexCompareTransitive(a: string, b: string, c: string)
    requires LexCompare(a, b) == Less && LexCompare(b, c) == Less
    ensures LexCompare(a, c) == Less
    decreases |a|
  {
    if a != [] && b != [] && c != [] && a[0] == b[0] && b[0] == c[0] {
      LexCompareTransitive(a[1..], b[1..], c[1..]);
    }
  }

  /**
   The textbook definition of lexicographic order: `a` is less than `b` when it
   is a proper prefix of `b`, or when at the first position where they differ
   `a` has the smaller character.
   */
  lemma {:induction false} LexCompareLessIff(a: string, b: string)
    ensures LexCompare(a, b) == Less <==>
      a < b || exists k :: 0 <= k < |a| && k < |b| && a[..k] == b[..k] && a[k] < b[k]
    decreases |a|
  {
    if a == [] || b == [] {
    } else if a[0] < b[0] {
      assert a[..0] == b[..0];
    } else if a[0] > b[0] {
      assert forall k :: 0 <= k < |a| && k < |b| && a[..k] == b[..k] ==> k == 0 || a[0] == b[0];
    } else {
      LexCompareLessIff(a[1..], b[1..]);
      var a', b' := a[1..], b[1..];
      assert a < b <==> a' < b' by {
        assert a == [a[0]] + a';
        assert b == [b[0]] + b';
      }
      if k :| 0 <= k < |a'| && k < |b'| && a'[..k] == b'[..k] && a'[k] < b'[k] {
        assert a[..k + 1] == [a[0]] + a'[..k];
        assert b[..k + 1] == [b[0]] + b'[..k];
      }
      if k :| 0 <= k < |a| && k < |b| && a[..k] == b[..k] && a[k] < b[k] {
        assert k != 0;
        assert a'[..k - 1] == a[..k][1..];
        assert b'[..k - 1] == b[..k][1..];
      }
    }
  }

  /** Triples compare `Equal` exactly when they are equal, i.e. hold equal strings. */
  lemma CmpEqualIff(t: TargetTriple, u: TargetTriple)
    ensures t.Cmp(u) == Equal <==> t == u
    ensures t == u <==> t.ToBazel() == u.ToBazel()
  {
    LexCompareEqualIff(t.bazel, u.bazel);
  }

  /** The derived order of triples is a total order: antisymmetric and transitive. */
  lemma CmpTotalOrder(t: TargetTriple, u: TargetTriple, v: TargetTriple)
    ensures u.Cmp(t) == Reverse(t.Cmp(u))
    ensures t.Cmp(u) == Less && u.Cmp(v) == Less ==> t.Cmp(v) == Less
  {
    LexCompareReverse(t.bazel, u.bazel);
    if t.Cmp(u) == Less && u.Cmp(v) == Less {
      LexCompareTransitive(t.bazel, u.bazel, v.bazel);
    }
  }
}
