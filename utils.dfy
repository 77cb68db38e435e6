/**
 * The shared helpers of `utils.py`: `drop_nbsp`, and the two rebindings inside
 * `setup_logging` that decide the effective level and the log file path.
 */
module Utils {
  import opened Wrappers
  import opened Strings

  predicate NoNbsp(s: string)
  {
    forall i :: 0 <= i < |s| ==> s[i] != NBSP
  }

  /** `text.replace('\xa0', ' ')`: every no-break space becomes a plain space. */
  function DropNbsp(s: string): (r: string)
    ensures |r| == |s| && NoNbsp(r)
    ensures forall i :: 0 <= i < |s| && s[i] != NBSP ==> r[i] == s[i]
    ensures forall i :: 0 <= i < |s| && s[i] == NBSP ==> r[i] == ' '
  {
    if s == [] then [] else [if s[0] == NBSP then ' ' else s[0]] + DropNbsp(s[1..])
  }

  /** The character-by-character definition agrees with Python's `str.replace` of a one-character pattern. */
  lemma {:induction false} DropNbspIsReplace(s: string)
    ensures DropNbsp(s) == Replace(s, [NBSP], " ")
  {
    if s != [] {
      assert s[..1] == [s[0]];
      assert s[1..] == s[|[NBSP]|..];
      DropNbspIsReplace(s[1..]);
    }
  }

  /** A text without no-break spaces is left as it is. */
  lemma DropNbspOfClean(s: string)
    requires NoNbsp(s)
    ensures DropNbsp(s) == s
  {
  }

  lemma DropNbspIdempotent(s: string)
    ensures DropNbsp(DropNbsp(s)) == DropNbsp(s)
  {
    DropNbspOfClean(DropNbsp(s));
  }

  /** A stripped text stays stripped: its ends are not whitespace, so in particular not U+00A0. */
  lemma DropNbspKeepsStripped(s: string)
    requires IsStripped(s)
    ensures IsStripped(DropNbsp(s))
  {
  }

  // ---------------------------------------------------------------- setup_logging

  const Levels: seq<string> := ["DEBUG", "INFO", "WARNING", "ERROR", "CRITICAL"]

  /** The level `setup_logging` actually installs: a known level name is kept, anything else becomes `"DEBUG"`. */
  function NormalizeLevel(level: string): (r: string)
    ensures r in Levels
    ensures level in Levels ==> r == level
    ensures level !in Levels ==> r == "DEBUG"
  {
    if level in Levels then level else "DEBUG"
  }

  lemma NormalizeLevelIdempotent(level: string)
    ensures NormalizeLevel(NormalizeLevel(level)) == NormalizeLevel(level)
  {
  }

  /** The file path `logs/{logger_name}.log` that `"default"` stands for. */
  function DefaultLogPath(loggerName: string): (r: string)
    ensures StartsWith(r, "logs/") && EndsWith(r, ".log")
  {
    "logs/" + loggerName + ".log"
  }

  /**
   * The log file path after `setup_logging`'s rebinding: `None` (console only) stays `None`,
   * `"default"` becomes `logs/{logger_name}.log`, any other path is kept as given.
   */
  function ResolveLogFilePath(path: Option<string>, loggerName: string): (r: Option<string>)
    ensures r.None? <==> path.None?
    ensures path == Some("default") ==> r == Some(DefaultLogPath(loggerName))
    ensures path.Some? && path.value != "default" ==> r == path
  {
    match path
    case None => None
    case Some(p) => if p == "default" then Some(DefaultLogPath(loggerName)) else path
  }

  /** The default path is never the word `"default"` itself, so resolving twice changes nothing. */
  lemma ResolveLogFilePathIdempotent(path: Option<string>, loggerName: string)
    ensures ResolveLogFilePath(ResolveLogFilePath(path, loggerName), loggerName) == ResolveLogFilePath(path, loggerName)
  {
    var d := DefaultLogPath(loggerName);
    assert d[0] == 'l';
  }
}
