/**
 * The generation history kept in the session: newest entry first, at most
 * ten entries (`save_to_history`).
 */
module History {
  import opened Wrappers

  /** One generation attempt. The timestamp is an opaque ordered value. */
  datatype HistoryEntry = HistoryEntry(
    timestamp: int, prompt: string, code: string, success: bool, filename: Option<string>)

  const HistoryCap: nat := 10

  function Min(a: int, b: int): int {
    if a <= b then a else b
  }

  /** The history after recording `entry`: inserted at the head, then cut to
      the cap, which evicts the oldest entry once the history is full. */
  function Pushed(history: seq<HistoryEntry>, entry: HistoryEntry): (r: seq<HistoryEntry>)
    ensures |r| == Min(|history| + 1, HistoryCap)
    ensures r[0] == entry
    ensures r[1..] == history[..|r| - 1]
  {
    ([entry] + history)[..Min(|history| + 1, HistoryCap)]
  }

  /** Recording entries one after another keeps them newest first: the last
      two recorded are at the head, in that order, and the cap still holds. */
  lemma PushedTwice(history: seq<HistoryEntry>, first: HistoryEntry, second: HistoryEntry)
    ensures var r := Pushed(Pushed(history, first), second);
      |r| <= HistoryCap && r[0] == second && r[1] == first
      && r[2..] == history[..|r| - 2]
  {
    var once := Pushed(history, first);
    var r := Pushed(once, second);
    assert r[1..] == once[..|r| - 1];
    assert r[1] == once[0];
    assert r[2..] == once[1..][..|r| - 2];
  }
}
