/**
 * `Logs` of httpserver.rs: the one line of log text a connection builds up
 * while it is served, printed once at the end.
 */
module Logging {

  /** The fixed text between two log entries. */
  const SEPARATOR: string := " -- "

  /** The content after `Logs::log(entry)`: a separator only if there is already some content. */
  function Logged(content: string, entry: string): (r: string)
    ensures |r| == |content| + |entry| + (if content == [] then 0 else |SEPARATOR|)
  {
    if content == [] then entry else content + SEPARATOR + entry
  }

  /** The content after `Logs::append(entry)`: the entry and a separator go in front. */
  function Prepended(content: string, entry: string): (r: string)
    ensures |r| == |entry| + |SEPARATOR| + |content|
  {
    entry + SEPARATOR + content
  }

  /** Logging every entry of `entries` in turn, starting from `content`. */
  function LogAll(content: string, entries: seq<string>): string
    decreases |entries|
  {
    if entries == [] then content else Logged(LogAll(content, entries[..|entries| - 1]), entries[|entries| - 1])
  }

  /** The entries with the separator between each two neighbours and nowhere else. */
  function Joined(entries: seq<string>): string
    decreases |entries|
  {
    if |entries| == 0 then []
    else if |entries| == 1 then entries[0]
    else Joined(entries[..|entries| - 1]) + SEPARATOR + entries[|entries| - 1]
  }

  /**
   * Logging non-empty entries into empty logs joins them with the separator,
   * with no separator before the first entry.
   */
  lemma {:induction false} LogAllJoins(entries: seq<string>)
    requires forall i :: 0 <= i < |entries| ==> entries[i] != []
    ensures LogAll([], entries) == Joined(entries)
    ensures entries != [] ==> LogAll([], entries) != []
    decreases |entries|
  {
    if entries != [] {
      var front := entries[..|entries| - 1];
      LogAllJoins(front);
      var last := entries[|entries| - 1];
      if front == [] {
        assert LogAll([], entries) == Logged([], last);
      } else {
        assert |LogAll([], entries)| >= |last| > 0;
      }
    }
  }

  /**
   * An empty first entry leaves no trace: the entry after it gets no
   * separator in front.
   */
  lemma EmptyFirstEntry(entry: string)
    ensures LogAll([], ["", entry]) == entry
  {
    assert ["", entry][..1] == [""];
    assert [""][..0] == [];
  }

  class Logs {
    var content: string

    /** `Logs::new`: empty logs. */
    constructor New()
      ensures content == []
    {
      content := [];
    }

    /** `Logs::log`. */
    method Log(entry: string)
      modifies this
      ensures content == Logged(old(content), entry)
    {
      if content != [] {
        content := content + SEPARATOR;
      }
      content := content + entry;
    }

    /** `Logs::append`: two insertions at the front, the separator first. */
    method Append(entry: string)
      modifies this
      ensures content == Prepended(old(content), entry)
    {
      content := SEPARATOR + content;
      content := entry + content;
    }
  }
}
