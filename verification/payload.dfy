/**
 * The callback payload of the two mode buttons: `short_<date>` or `full_<date>`. The whole
 * request (mode and date) travels in the button, so pressing it needs no server-side state.
 */
module Payload {
  import opened Wrappers
  import opened Strings

  /** Short rendering omits the commentary paragraphs; full rendering adds those that fit. */
  datatype Mode = Short | Full

  /** What a button press asks for; the date part is `undefined` when the payload has no `_`. */
  datatype Request = Request(mode: Mode, date: Option<string>)

  const Separator: char := '_'

  function ModeToken(m: Mode): string
  {
    if m == Full then "full" else "short"
  }

  /** The payload a mode button carries for the date the user typed. */
  function Encode(m: Mode, date: string): (r: string)
    ensures Separator in r
  {
    ModeToken(m) + [Separator] + date
  }

  /**
   * The callback handler's decoding: the payload split at `_` gives the mode and the date, and the mode is full
   * exactly when the first piece is `full`. So the mode is full if and only if the payload is
   * `full` or starts with `full_`; any other first piece, known or not, selects short mode.
   * The date part is present if and only if the payload holds a `_`.
   */
  function Decode(data: string): (r: Request)
    ensures r.mode == Full <==> data == "full" || (|data| >= 5 && data[..5] == "full_")
    ensures r.date.Some? <==> Separator in data
    ensures r.date.Some? ==> Separator !in r.date.value
  {
    var parts := Split(data, Separator);
    FirstPieceIsFull(data);
    SplitFirst(data, Separator);
    Request(if parts[0] == "full" then Full else Short, if |parts| >= 2 then Some(parts[1]) else None)
  }

  /** The first piece of a payload is `full` exactly when the payload is `full` or starts with `full_`. */
  lemma FirstPieceIsFull(data: string)
    ensures Split(data, Separator)[0] == "full" <==> data == "full" || (|data| >= 5 && data[..5] == "full_")
  {
    var parts := Split(data, Separator);
    SplitFirst(data, Separator);
    FullPrefix(data, parts[0], |parts| > 1);
  }

  /** The longest separator-free prefix of a string is `full` exactly when the string is `full` or starts with `full_`. */
  lemma FullPrefix(data: string, first: string, more: bool)
    requires first <= data && Separator !in first
    requires more ==> |first| < |data| && data[|first|] == Separator
    requires !more ==> first == data
    ensures first == "full" <==> data == "full" || (|data| >= 5 && data[..5] == "full_")
  {
    if first == "full" && more {
      assert data[..5] == first + [Separator];
    }
    if |data| >= 5 && data[..5] == "full_" {
      assert data[4] == Separator;
      assert first == data[..4];
    }
  }

  /** Decoding a button's payload gives back the mode and the date it was built from. */
  lemma {:induction false} DecodeEncode(m: Mode, date: string)
    requires Separator !in date
    ensures Decode(Encode(m, date)) == Request(m, Some(date))
  {
    SplitAfter(ModeToken(m), Separator, date);
    SplitNone(date, Separator);
  }

  /**
   * The date is the second `_`-piece: whatever comes after a second `_` is ignored, and the
   * first piece alone chooses the mode.
   */
  lemma {:induction false} DecodeIgnoresExtraPieces(head: string, date: string, tail: string)
    requires Separator !in head && Separator !in date
    ensures var r := Decode(head + [Separator] + date + [Separator] + tail);
      r == Request(if head == "full" then Full else Short, Some(date))
  {
    var data := head + [Separator] + date + [Separator] + tail;
    assert data == head + [Separator] + (date + [Separator] + tail);
    SplitAfter(head, Separator, date + [Separator] + tail);
    SplitAfter(date, Separator, tail);
  }
}
