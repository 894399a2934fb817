/**
 The size bound on task summary texts (net/alerts/templates.py:57-94).

 Channels limit a message twice: by its UTF-8 size and by its size inside an ASCII-only JSON payload.
 The footer with the task link must always survive whole, so only the body in front of it is cut.
 */
module SummaryBody {
  import opened Outcomes
  import DnValue

  const MAX_TEXT_BYTES := 12000
  const MAX_JSON_TEXT_BYTES := 16000
  const ELLIPSIS := "\U{2026}"

  // ---------------------------------------------------------------------------------------
  // Sizes
  // ---------------------------------------------------------------------------------------

  function CharBytes(c: char): (bytes: nat)
    ensures 1 <= bytes <= 4
  {
    var code := c as int;
    if code < 0x80 then 1 else if code < 0x800 then 2 else if code < 0x10000 then 3 else 4
  }

  /** Printable ASCII is written as it is; quotes, backslashes and five controls take two characters. */
  function CharJson(c: char): (size: nat)
    ensures 1 <= size <= 12
  {
    var code := c as int;
    if c == '"' || c == '\\' || code in {8, 9, 10, 12, 13} then 2
    else if 0x20 <= code <= 0x7e then 1
    else if code < 0x10000 then 6
    else 12
  }

  /** The UTF-8 size of a character is the number of bytes it is encoded in. */
  lemma CharBytesRead(c: char)
    ensures CharBytes(c) == |DnValue.EncodeChar(c)|
  {
  }

  /** A character in an ASCII-only JSON text; beyond the basic plane it is a surrogate pair. */
  function JsonChar(c: char): (text: string) {
    var code := c as int;
    if c == '"' then "\\\""
    else if c == '\\' then "\\\\"
    else if code == 8 then "\\b"
    else if code == 9 then "\\t"
    else if code == 10 then "\\n"
    else if code == 12 then "\\f"
    else if code == 13 then "\\r"
    else if ' ' <= c <= '~' then [c]
    else if code < 0x10000 then UnicodeEscape(code)
    else UnicodeEscape(0xD800 + (code - 0x10000) / 0x400) + UnicodeEscape(0xDC00 + (code - 0x10000) % 0x400)
  }

  function UnicodeEscape(unit: nat): (text: string)
    requires unit < 0x10000
    ensures |text| == 6
  {
    var digits := "0123456789abcdef";
    "\\u" + [digits[unit / 4096], digits[unit / 256 % 16], digits[unit / 16 % 16], digits[unit % 16]]
  }

  /** The size on the wire is the length of what is written there. */
  lemma CharJsonReads(c: char)
    ensures CharJson(c) == |JsonChar(c)|
  {
  }

  function Bytes(s: string): (size: nat) {
    if s == "" then 0 else Bytes(s[..|s| - 1]) + CharBytes(s[|s| - 1])
  }

  function JsonSize(s: string): (size: nat) {
    if s == "" then 0 else JsonSize(s[..|s| - 1]) + CharJson(s[|s| - 1])
  }

  lemma {:induction false} SizesAdd(s: string, t: string)
    ensures Bytes(s + t) == Bytes(s) + Bytes(t)
    ensures JsonSize(s + t) == JsonSize(s) + JsonSize(t)
  {
    if t == "" {
      assert s + t == s;
    } else {
      SizesAdd(s, t[..|t| - 1]);
      assert (s + t)[..|s + t| - 1] == s + t[..|t| - 1];
    }
  }

  lemma PrefixSizes(s: string, k: nat)
    requires k <= |s|
    ensures Bytes(s) == Bytes(s[..k]) + Bytes(s[k..]) && JsonSize(s) == JsonSize(s[..k]) + JsonSize(s[k..])
  {
    var head, tail := s[..k], s[k..];
    assert head + tail == s;
    SizesAdd(head, tail);
  }

  lemma EllipsisSizes()
    ensures Bytes(ELLIPSIS) == 3 && JsonSize(ELLIPSIS) == 6
  {
    assert ELLIPSIS[..0] == "" && ELLIPSIS[0] as int == 0x2026;
  }

  // ---------------------------------------------------------------------------------------
  // Clipping by bytes
  // ---------------------------------------------------------------------------------------

  /** `s.encode()[:limit].decode(errors='ignore')`: the characters that fit whole. */
  function TakeBytes(s: string, limit: nat): (kept: string)
    ensures kept <= s && Bytes(kept) <= limit
    ensures kept < s ==> Bytes(s[..|kept| + 1]) > limit
  {
    if Bytes(s) <= limit then s
    else
      var kept := TakeBytes(s[..|s| - 1], limit);
      assert kept < s[..|s| - 1] ==> s[..|kept| + 1] == s[..|s| - 1][..|kept| + 1];
      assert kept == s[..|s| - 1] ==> s[..|kept| + 1] == s;
      kept
  }

  function Clip(s: string, limit: int): (clipped: string) {
    if Bytes(s) <= limit then s
    else TakeBytes(s, if limit > 3 then limit - 3 else 0) + ELLIPSIS
  }

  lemma ClipFits(s: string, limit: int)
    requires limit >= 3
    ensures Bytes(Clip(s, limit)) <= limit
  {
    EllipsisSizes();
    SizesAdd(TakeBytes(s, limit - 3), ELLIPSIS);
  }

  /** A text that fits is left alone, and any other is cut as late as the ellipsis allows. */
  lemma ClipReads(s: string, limit: int)
    requires limit >= 3
    ensures Bytes(s) <= limit ==> Clip(s, limit) == s
    ensures Bytes(s) > limit ==> exists k: nat :: k < |s| && Clip(s, limit) == s[..k] + ELLIPSIS
                                  && Bytes(s[..k]) + 3 <= limit < Bytes(s[..k + 1]) + 3
  {
    if Bytes(s) > limit {
      var kept := TakeBytes(s, limit - 3);
      assert kept == s[..|kept|];
    }
  }

  // ---------------------------------------------------------------------------------------
  // The bounded body
  // ---------------------------------------------------------------------------------------

  function RawBudget(footer: string): int { MAX_TEXT_BYTES - Bytes(footer) }

  function WireBudget(footer: string): int { MAX_JSON_TEXT_BYTES - JsonSize(footer) }

  /** `value` is cut after `k` characters and an ellipsis, and no longer cut fits on the wire. */
  ghost predicate LongestFit(value: string, k: nat, budget: int) {
    && k <= |value|
    && JsonSize(value[..k] + ELLIPSIS) <= budget
    && forall m :: k < m <= |value| ==> JsonSize(value[..m] + ELLIPSIS) > budget
  }

  lemma CutSize(value: string, k: nat)
    requires k <= |value|
    ensures JsonSize(value[..k] + ELLIPSIS) == JsonSize(value[..k]) + 6
    ensures Bytes(value[..k] + ELLIPSIS) == Bytes(value[..k]) + 3
  {
    EllipsisSizes();
    SizesAdd(value[..k], ELLIPSIS);
  }

  lemma LongerCutsAreLarger(value: string, k: nat, m: nat)
    requires k <= m <= |value|
    ensures JsonSize(value[..k] + ELLIPSIS) <= JsonSize(value[..m] + ELLIPSIS)
  {
    CutSize(value, k);
    CutSize(value, m);
    PrefixSizes(value[..m], k);
    assert value[..m][..k] == value[..k];
  }

  // ---------------------------------------------------------------------------------------
  // The UTF-8 size
  // ---------------------------------------------------------------------------------------

  /** A control character that has no short escape: one byte in UTF-8, six on the wire. */
  predicate BareControl(c: char) {
    CharBytes(c) == 1 && CharJson(c) == 6
  }

  lemma {:induction false} WireFromBytes(s: string)
    ensures JsonSize(s) <= 6 * Bytes(s)
    ensures (forall i :: 0 <= i < |s| ==> !BareControl(s[i])) ==> JsonSize(s) <= 3 * Bytes(s)
  {
    if s != "" {
      WireFromBytes(s[..|s| - 1]);
    }
  }

  /**
   Cutting for the wire can add bytes: the ellipsis has three, and what is dropped may have two. So the
   byte limit holds for every text without bare controls, and is missed by at most one byte otherwise.
   */
  lemma CutStaysWithinBytes(value: string, k: nat, rawBudget: int, wireBudget: int)
    requires Bytes(value) <= rawBudget && JsonSize(value) > wireBudget && LongestFit(value, k, wireBudget)
    ensures Bytes(value[..k] + ELLIPSIS) <= rawBudget + 1
    ensures (forall i :: 0 <= i < |value| ==> !BareControl(value[i])) ==> Bytes(value[..k] + ELLIPSIS) <= rawBudget
  {
    CutSize(value, k);
    PrefixSizes(value, k);
    WireFromBytes(value[k..]);
  }

  lemma ClipKeepsCharacters(value: string, limit: int)
    requires forall i :: 0 <= i < |value| ==> !BareControl(value[i])
    ensures forall i :: 0 <= i < |Clip(value, limit)| ==> !BareControl(Clip(value, limit)[i])
  {
    EllipsisSizes();
    assert !BareControl(ELLIPSIS[0]);
  }

  /** What `_bounded_body` may return for a text and its footer. */
  ghost predicate IsBounded(value: string, footer: string, body: string) {
    var clipped := Clip(value, RawBudget(footer));
    if JsonSize(clipped) <= WireBudget(footer) then body == clipped
    else exists k: nat :: LongestFit(clipped, k, WireBudget(footer)) && body == clipped[..k] + ELLIPSIS
  }

  /** At most 12000 bytes without bare controls, and never more than 12001. */
  lemma TextStaysWithinBytes(value: string, footer: string, body: string)
    requires RawBudget(footer) >= 6 && WireBudget(footer) >= 6 && IsBounded(value, footer, body)
    ensures Bytes(body + footer) <= MAX_TEXT_BYTES + 1
    ensures (forall i :: 0 <= i < |value| ==> !BareControl(value[i])) ==> Bytes(body + footer) <= MAX_TEXT_BYTES
  {
    var clipped := Clip(value, RawBudget(footer));
    ClipFits(value, RawBudget(footer));
    SizesAdd(body, footer);
    if JsonSize(clipped) > WireBudget(footer) {
      var k: nat :| LongestFit(clipped, k, WireBudget(footer)) && body == clipped[..k] + ELLIPSIS;
      CutStaysWithinBytes(clipped, k, RawBudget(footer), WireBudget(footer));
      if forall i :: 0 <= i < |value| ==> !BareControl(value[i]) {
        ClipKeepsCharacters(value, RawBudget(footer));
      }
    }
  }

  /**
   The texts that come out one byte too long: clipping used up the byte limit, the wire limit then
   cuts, and the cut that just fits drops two bytes where the ellipsis adds three.
   */
  ghost predicate Overruns(value: string, footer: string) {
    CutOverruns(Clip(value, RawBudget(footer)), RawBudget(footer), WireBudget(footer))
  }

  ghost predicate CutOverruns(clipped: string, raw: int, wire: int) {
    JsonSize(clipped) > wire && Bytes(clipped) == raw
    && exists k: nat :: LongestFit(clipped, k, wire) && Bytes(clipped[k..]) == 2
  }

  lemma LongestFitIsUnique(value: string, k: nat, m: nat, budget: int)
    requires LongestFit(value, k, budget) && LongestFit(value, m, budget)
    ensures k == m
  {
  }

  /** What a cut for the wire drops is worth more than the ellipsis there, so it has at least two bytes. */
  lemma CutOverrunsExactly(clipped: string, k: nat, raw: int, wire: int)
    requires Bytes(clipped) <= raw && JsonSize(clipped) > wire && LongestFit(clipped, k, wire)
    ensures Bytes(clipped[..k] + ELLIPSIS) > raw <==> CutOverruns(clipped, raw, wire)
    ensures Bytes(clipped[..k] + ELLIPSIS) <= raw + 1
  {
    CutSize(clipped, k);
    PrefixSizes(clipped, k);
    WireFromBytes(clipped[k..]);
    assert Bytes(clipped[k..]) >= 2;
    forall m: nat | LongestFit(clipped, m, wire) ensures m == k {
      LongestFitIsUnique(clipped, k, m, wire);
    }
  }

  /** The byte limit is missed exactly by those texts, and then by one byte. */
  lemma TextOverrunsExactly(value: string, footer: string, body: string)
    requires RawBudget(footer) >= 6 && WireBudget(footer) >= 6 && IsBounded(value, footer, body)
    ensures Bytes(body + footer) > MAX_TEXT_BYTES <==> Overruns(value, footer)
    ensures Overruns(value, footer) ==> Bytes(body + footer) == MAX_TEXT_BYTES + 1
  {
    var clipped, wire := Clip(value, RawBudget(footer)), WireBudget(footer);
    ClipFits(value, RawBudget(footer));
    SizesAdd(body, footer);
    if JsonSize(clipped) > wire {
      var k: nat :| LongestFit(clipped, k, wire) && body == clipped[..k] + ELLIPSIS;
      CutOverrunsExactly(clipped, k, RawBudget(footer), wire);
    }
  }

  /** A text that fits both limits with its footer comes out as it is. */
  lemma FittingTextIsKept(value: string, footer: string, body: string)
    requires RawBudget(footer) >= 6 && WireBudget(footer) >= 6 && IsBounded(value, footer, body)
    requires Bytes(value + footer) <= MAX_TEXT_BYTES && JsonSize(value + footer) <= MAX_JSON_TEXT_BYTES
    ensures body == value
  {
    SizesAdd(value, footer);
    ClipReads(value, RawBudget(footer));
  }

  lemma BodyFitsTheWire(value: string, footer: string, body: string)
    requires RawBudget(footer) >= 6 && WireBudget(footer) >= 6 && IsBounded(value, footer, body)
    ensures JsonSize(body + footer) <= MAX_JSON_TEXT_BYTES
  {
    SizesAdd(body, footer);
  }

  /** What is promised about the text made of a value and its footer. */
  ghost predicate TextMeans(value: string, footer: string, text: string) {
    && (exists body :: IsBounded(value, footer, body) && text == body + footer)
    && JsonSize(text) <= 16000 && Bytes(text) <= 12001
    && ((forall i :: 0 <= i < |value| ==> !BareControl(value[i])) ==> Bytes(text) <= 12000)
    && (Bytes(text) > 12000 <==> Overruns(value, footer))
    && (Bytes(value + footer) <= 12000 && JsonSize(value + footer) <= 16000 ==> text == value + footer)
  }

  lemma BoundedTextMeans(value: string, footer: string, body: string)
    requires RawBudget(footer) >= 6 && WireBudget(footer) >= 6 && IsBounded(value, footer, body)
    ensures TextMeans(value, footer, body + footer)
  {
    TextStaysWithinBytes(value, footer, body);
    TextOverrunsExactly(value, footer, body);
    BodyFitsTheWire(value, footer, body);
    if Bytes(value + footer) <= 12000 && JsonSize(value + footer) <= 16000 {
      FittingTextIsKept(value, footer, body);
    }
  }

  /**
   The footer always survives whole and the result always fits on the wire. The body is the clipped
   text, or the longest cut of it that fits.
   */
  method BoundedBody(value: string, footer: string) returns (text: Result<string, ()>)
    ensures text.Err? <==> Bytes(footer) > 11994 || JsonSize(footer) > 15994
    ensures text.Ok? ==> TextMeans(value, footer, text.value)
  {
    var rawBudget, wireBudget := RawBudget(footer), WireBudget(footer);
    if (if rawBudget < wireBudget then rawBudget else wireBudget) < 6 {
      return Err(());
    }
    var clipped := Clip(value, rawBudget);
    var body := clipped;
    if JsonSize(body) > wireBudget {
      var low := BinarySearch(clipped, wireBudget);
      body := clipped[..low] + ELLIPSIS;
    }
    BoundedTextMeans(value, footer, body);
    return Ok(body + footer);
  }

  /** The search loop: the longest cut that fits, found between bounds that close in on it. */
  method BinarySearch(value: string, budget: int) returns (low: nat)
    requires budget >= 6
    ensures LongestFit(value, low, budget)
  {
    var high := |value|;
    low := 0;
    CutSize(value, 0);
    while low < high
      invariant 0 <= low <= high <= |value|
      invariant JsonSize(value[..low] + ELLIPSIS) <= budget
      invariant forall m :: high < m <= |value| ==> JsonSize(value[..m] + ELLIPSIS) > budget
    {
      var middle := (low + high + 1) / 2;
      if JsonSize(value[..middle] + ELLIPSIS) <= budget {
        low := middle;
      } else {
        forall m | middle <= m <= high ensures JsonSize(value[..m] + ELLIPSIS) > budget {
          LongerCutsAreLarger(value, middle, m);
        }
        high := middle - 1;
      }
    }
  }

  function Repeat(c: char, n: nat): (s: string)
    ensures |s| == n && forall i :: 0 <= i < n ==> s[i] == c
  {
    seq(n, i => c)
  }

  lemma {:induction false} RepeatSizes(c: char, n: nat)
    ensures Bytes(Repeat(c, n)) == n * CharBytes(c) && JsonSize(Repeat(c, n)) == n * CharJson(c)
  {
    if n > 0 {
      RepeatSizes(c, n - 1);
      assert Repeat(c, n)[..n - 1] == Repeat(c, n - 1);
    }
  }

  /** The footer of a summary whose task has no address: a line break and eighteen wide characters. */
  const PLAIN_FOOTER := "\n" + "完整结果请查看任务详情：任务记录页面"

  lemma {:induction false} WideSizes(s: string)
    requires forall i :: 0 <= i < |s| ==> 0x800 <= s[i] as int < 0x10000
    ensures Bytes(s) == 3 * |s| && JsonSize(s) == 6 * |s|
  {
    if s != "" {
      WideSizes(s[..|s| - 1]);
    }
  }

  lemma FooterSizes()
    ensures RawBudget(PLAIN_FOOTER) == 11945 && WireBudget(PLAIN_FOOTER) == 15890
  {
    var rest := "完整结果请查看任务详情：任务记录页面";
    assert |rest| == 18;
    WideSizes(rest);
    assert "\n"[..0] == "" && "\n"[0] as int == 10;
    SizesAdd("\n", rest);
  }

  /** 985 two-byte characters and 9973 letters: 11943 bytes, and 15883 characters on the wire. */
  lemma WideAndPlain() returns (text: string)
    ensures Bytes(text) == 11943 && JsonSize(text) == 15883
  {
    RepeatSizes('\U{e9}', 985);
    RepeatSizes('a', 9973);
    text := Repeat('\U{e9}', 985) + Repeat('a', 9973);
    SizesAdd(Repeat('\U{e9}', 985), Repeat('a', 9973));
  }

  lemma ControlSizes()
    ensures Bytes("\U{01}") == 1 && JsonSize("\U{01}") == 6
    ensures Bytes("\U{01}\U{01}") == 2 && JsonSize("\U{01}\U{01}") == 12
  {
    assert "\U{01}\U{01}"[..1] == "\U{01}" && "\U{01}"[..0] == "";
  }

  /** A text that fits in bytes and is cut at `k` on the wire. */
  lemma CutText(value: string, footer: string, k: nat)
    requires k < |value| && Bytes(value) <= RawBudget(footer) && JsonSize(value) > WireBudget(footer)
    requires JsonSize(value[..k]) + 6 <= WireBudget(footer) < JsonSize(value[..k + 1]) + 6
    ensures LongestFit(value, k, WireBudget(footer)) && IsBounded(value, footer, value[..k] + ELLIPSIS)
  {
    CutSize(value, k);
    CutSize(value, k + 1);
    forall m | k < m <= |value| ensures JsonSize(value[..m] + ELLIPSIS) > WireBudget(footer) {
      LongerCutsAreLarger(value, k + 1, m);
    }
  }

  /** The extra byte does occur, with the footer of a task without an address: a text ending in two bare controls. */
  lemma OneByteTooMany() returns (value: string, body: string)
    ensures IsBounded(value, PLAIN_FOOTER, body) && Bytes(body + PLAIN_FOOTER) == MAX_TEXT_BYTES + 1
  {
    var kept := WideAndPlain();
    FooterSizes();
    ControlSizes();
    SizesAdd(kept, "\U{01}\U{01}");
    SizesAdd(kept, "\U{01}");
    value, body := kept + "\U{01}\U{01}", kept + ELLIPSIS;
    ghost var k := |kept|;
    assert value[..k] == kept && value[..k + 1] == kept + "\U{01}" && value[k..] == "\U{01}\U{01}";
    CutText(value, PLAIN_FOOTER, k);
    TextOverrunsExactly(value, PLAIN_FOOTER, body);
  }
}
