/** How Composer's install preference reaches the asset managers: the
    `preferred-install` setting, overridden by the `--prefer-source` and
    `--prefer-dist` command-line flags. */
module ConsoleUtil {
  import opened PhpValue

  /** `switch ($v) { case word: ... }` compares loosely. Under PHP 8 rules a
      non-numeric, non-empty word equals only the same string and `true`. */
  predicate LooselyIs(v: Value, word: string)
    requires word != ""
  {
    match v
    case Str(s) => s == word
    case Bool(b) => b
    case _ => false
  }

  /** `getPreferredInstallOptions`: the pair (prefer source, prefer dist).
      The configured preference picks at most one of them; either flag given
      on the command line replaces both with the flags. */
  function PreferredInstallOptions(preferred: Value, preferSource: bool, preferDist: bool): (r: (bool, bool))
    ensures preferSource || preferDist ==> r == (preferSource, preferDist)
    ensures !preferSource && !preferDist ==> !(r.0 && r.1)
    ensures !preferSource && !preferDist ==> (r.0 || r.1 ==> preferred.Str? || preferred.Bool?)
  {
    var fromConfig :=
      if LooselyIs(preferred, "source") then (true, false)
      else if LooselyIs(preferred, "dist") then (false, true)
      else (false, false);
    if preferSource || preferDist then (preferSource, preferDist) else fromConfig
  }

  /** Without flags, a textual preference decides alone: `source` prefers
      sources, `dist` prefers archives, and `auto` or any other text neither. */
  lemma PreferredFromConfig(s: string)
    ensures s == "source" ==> PreferredInstallOptions(Str(s), false, false) == (true, false)
    ensures s == "dist" ==> PreferredInstallOptions(Str(s), false, false) == (false, true)
    ensures s != "source" && s != "dist" ==> PreferredInstallOptions(Str(s), false, false) == (false, false)
  {
  }

  /** Loose comparison lets a `true` setting hit the first case, `source`;
      any non-textual setting other than `true` selects nothing. */
  lemma PreferredNonText(preferred: Value)
    requires !preferred.Str?
    ensures PreferredInstallOptions(preferred, false, false)
            == if preferred == Bool(true) then (true, false) else (false, false)
  {
  }

  /** With `--prefer-dist` given, `auto` yields archives only. */
  lemma PreferDistOverridesAuto()
    ensures PreferredInstallOptions(Str("auto"), false, true) == (false, true)
  {
  }
}
