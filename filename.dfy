/**
 * Session::sanitizeFilename and the path Session::processFile builds from its result.
 */
module Filename {

  /** The nine characters sanitizeFilename replaces: \ / : * ? " < > | */
  predicate IsReserved(c: char) {
    c == '\\' || c == '/' || c == ':' || c == '*' || c == '?' || c == '"' || c == '<' || c == '>' || c == '|'
  }

  /** What sanitizeFilename turns one character into. */
  function Replaced(c: char): char {
    if IsReserved(c) then '_' else c
  }

  /** The sanitised name: every character replaced in turn, from the first to the last. */
  function Sanitize(name: string): string {
    if name == [] then [] else [Replaced(name[0])] + Sanitize(name[1..])
  }

  /**
   * The result has the length of the name; each reserved character becomes '_' and every
   * other character stays where it was.
   */
  lemma {:induction false} SanitizePointwise(name: string)
    ensures |Sanitize(name)| == |name|
    ensures forall k :: 0 <= k < |name| ==>
      Sanitize(name)[k] == if IsReserved(name[k]) then '_' else name[k]
  {
    if name != [] {
      SanitizePointwise(name[1..]);
    }
  }

  /** A sanitised name holds none of the nine reserved characters. */
  lemma SanitizeClean(name: string)
    ensures forall k :: 0 <= k < |Sanitize(name)| ==> !IsReserved(Sanitize(name)[k])
  {
    SanitizePointwise(name);
  }

  /** Sanitising twice is sanitising once. */
  lemma SanitizeIdempotent(name: string)
    ensures Sanitize(Sanitize(name)) == Sanitize(name)
  {
    var once := Sanitize(name);
    SanitizePointwise(name);
    SanitizePointwise(once);
  }

  /** A name with no reserved character is kept as it is. */
  lemma SanitizeKeepsClean(name: string)
    requires forall k :: 0 <= k < |name| ==> !IsReserved(name[k])
    ensures Sanitize(name) == name
  {
    SanitizePointwise(name);
  }

  /**
   * Session::sanitizeFilename: the loop over the copy of the name that overwrites each
   * reserved character with '_'.
   */
  method SanitizeFilename(filename: string) returns (r: string)
    ensures r == Sanitize(filename)
  {
    r := filename;
    for k := 0 to |r|
      invariant |r| == |filename|
      invariant forall j :: 0 <= j < k ==> r[j] == Replaced(filename[j])
      invariant forall j :: k <= j < |r| ==> r[j] == filename[j]
    {
      if IsReserved(r[k]) {
        r := r[k := '_'];
      }
    }
    SanitizePointwise(filename);
  }

  /** The text processFile puts between the desktop path and the file name. */
  const ReceivedPrefix: string := "\\Received from client "

  /** The path processFile writes a received file to, under the desktop directory desktop. */
  function ReceivedPath(desktop: string, rawName: string): string {
    desktop + ReceivedPrefix + Sanitize(rawName)
  }

  /**
   * Whatever name the sender chose, the path is the desktop path, one '\', and a last
   * component "Received from client " + name holding no '\' or '/': the file is written
   * directly inside the desktop directory and the name cannot climb out of it.
   */
  lemma ReceivedPathStaysInDesktop(desktop: string, rawName: string)
    ensures var p := ReceivedPath(desktop, rawName);
      |p| == |desktop| + 22 + |rawName| && p[..|desktop|] == desktop && p[|desktop|] == '\\'
    ensures var p := ReceivedPath(desktop, rawName);
      forall k :: |desktop| < k < |p| ==> p[k] != '\\' && p[k] != '/'
  {
    var p := ReceivedPath(desktop, rawName);
    SanitizePointwise(rawName);
    assert |ReceivedPrefix| == 22;
    forall k | |desktop| < k < |p| ensures p[k] != '\\' && p[k] != '/' {
      if k < |desktop| + 22 {
        assert p[k] == ReceivedPrefix[k - |desktop|];
      } else {
        assert p[k] == Sanitize(rawName)[k - |desktop| - 22];
      }
    }
  }
}
