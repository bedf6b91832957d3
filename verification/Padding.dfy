/** Padded fields: what the padder of the logger does to a buffer around a text. */
module Paddings {

  const MAX_WIDTH := 64

  datatype Side = Left | Right | Center

  datatype Padding = Padding(width: nat, side: Side, truncate: bool, enabled: bool)

  const NO_PADDING := Padding(0, Left, false, false)

  /** The paddings a pattern can ask for. */
  predicate Usable(padding: Padding) {
    padding.width <= MAX_WIDTH && (padding.enabled || padding == NO_PADDING)
  }

  function Spaces(n: nat): (s: string)
    ensures |s| == n && forall c <- s :: c == ' '
  {
    seq(n, i => ' ')
  }

  /** How many spaces precede a field that lacks `room` characters. */
  function LeadingSpaces(side: Side, room: nat): (n: nat)
    ensures n <= room
  {
    match side
    case Left => room
    case Right => 0
    case Center => room / 2
  }

  /** `s` without its last `n` characters. */
  function Shortened(s: string, n: nat): string {
    if |s| < n then "" else s[..|s| - n]
  }

  /** What a buffer holds once a text, announced with a size, stands in its field: there are
      spaces around it, or the end of the buffer is cut off. */
  function WithField(before: string, text: string, size: nat, padding: Padding): string {
    if size <= padding.width then
      var room := padding.width - size;
      var leading := LeadingSpaces(padding.side, room);
      before + Spaces(leading) + text + Spaces(room - leading)
    else if padding.truncate then Shortened(before + text, size - padding.width)
    else before + text
  }

  /** The width a field takes and where its text stands, whatever size was announced. */
  lemma FieldLayout(before: string, text: string, size: nat, padding: Padding)
    ensures var after := WithField(before, text, size, padding);
            if size <= padding.width then
              exists l: nat, r: nat ::
                && after == before + Spaces(l) + text + Spaces(r) && l + r == padding.width - size
                && (padding.side == Left ==> r == 0) && (padding.side == Right ==> l == 0)
                && (padding.side == Center ==> l <= r <= l + 1)
            else if padding.truncate then
              && after <= before + text
              && |after| == if |before + text| < size - padding.width then 0
                            else |before + text| - (size - padding.width)
            else after == before + text
  {
    if size <= padding.width {
      var room := padding.width - size;
      var l := LeadingSpaces(padding.side, room);
      var r: nat := room - l;
      assert WithField(before, text, size, padding) == before + Spaces(l) + text + Spaces(r);
    }
  }

  /** A text announced with its own size takes its width, or the width of a longer text, or
      exactly its width if it truncates; what was in the buffer before stays. */
  lemma ExactField(before: string, text: string, padding: Padding)
    ensures var after := WithField(before, text, |text|, padding);
            && before <= after
            && |after| - |before| ==
                 (if padding.truncate || |text| <= padding.width then padding.width else |text|)
            && (|text| > padding.width && padding.truncate ==> after == before + text[..padding.width])
  {
    FieldLayout(before, text, |text|, padding);
    if |text| > padding.width && padding.truncate {
      var n := |text| - padding.width;
      assert (before + text)[..|before + text| - n] == before + text[..padding.width];
    }
  }

  lemma NoField(before: string, text: string, size: nat)
    ensures WithField(before, text, size, NO_PADDING) == before + text
  {
  }

  class MemoryBuffer {
    var text: string

    constructor ()
      ensures text == ""
    {
      text := "";
    }

    method Append(more: string)
      modifies this
      ensures text == old(text) + more
    {
      text := text + more;
    }

    method Resize(size: nat)
      requires size <= |text|
      modifies this
      ensures text == old(text)[..size]
    {
      text := text[..size];
    }
  }

  /** Pads the text written to a buffer during its lifetime. */
  class ScopedPadder {
    const padding: Padding
    const dest: MemoryBuffer
    const spaces: string
    var remaining: int

    constructor (wrappedSize: nat, padding: Padding, dest: MemoryBuffer)
      requires padding.width <= MAX_WIDTH
      modifies dest
      ensures this.padding == padding && this.dest == dest && spaces == Spaces(MAX_WIDTH)
      ensures var room := padding.width - wrappedSize;
              var leading := LeadingSpaces(padding.side, if room > 0 then room else 0);
              && dest.text == old(dest.text) + Spaces(leading)
              && remaining == room - leading
    {
      this.padding, this.dest, this.spaces := padding, dest, Spaces(MAX_WIDTH);
      remaining := padding.width - wrappedSize;
      new;
      assert dest.text == dest.text + Spaces(0);
      if remaining <= 0 {
        return;
      }
      if padding.side == Left {
        PadIt(remaining);
        remaining := 0;
      } else if padding.side == Center {
        var half, reminder := remaining / 2, remaining % 2;
        PadIt(half);
        remaining := half + reminder;
      }
    }

    /** Writes spaces; there are always enough of them. */
    method PadIt(count: nat)
      requires count <= |spaces| && spaces == Spaces(MAX_WIDTH)
      modifies dest
      ensures dest.text == old(dest.text) + Spaces(count)
    {
      assert spaces[..count] == Spaces(count);
      dest.Append(spaces[..count]);
    }

    /** The destructor. */
    method Close()
      requires remaining <= |spaces| && spaces == Spaces(MAX_WIDTH)
      modifies dest
      ensures dest.text == if remaining >= 0 then old(dest.text) + Spaces(remaining)
                           else if !padding.truncate then old(dest.text)
                           else Shortened(old(dest.text), -remaining)
    {
      if remaining >= 0 {
        PadIt(remaining);
      } else if padding.truncate {
        var newSize := |dest.text| + remaining;
        if newSize < 0 {
          newSize := 0;
        }
        dest.Resize(newSize);
      }
    }
  }

  /** Writes a text in its field, as every padded flag does. */
  method AppendPadded(text: string, size: nat, padding: Padding, dest: MemoryBuffer)
    requires padding.width <= MAX_WIDTH
    modifies dest
    ensures dest.text == WithField(old(dest.text), text, size, padding)
  {
    var padder := new ScopedPadder(size, padding, dest);
    dest.Append(text);
    ghost var written := dest.text;
    padder.Close();
    if size > padding.width {
      assert written == old(dest.text) + text;
    }
  }
}
