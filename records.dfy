/** The record scanner of `LoadBarsFromJSON` (bars.c): the text it sees,
    how its cursor moves from one `{` to the next, and how each record's
    four fields are read. The loop that appends to the bar array is
    App.Dashboard.LoadBarsFromText; this module gives it its meaning. */
module Records {
  import opened CInt
  import opened CString
  import opened Color

  const MaxBars: nat := 100
  const BufferSize: nat := 10240
  const TitleWidth: nat := 49
  const ColorWidth: nat := 7

  const TitleKey: string := Quoted("title")
  const CurrentKey: string := Quoted("current")
  const TotalKey: string := Quoted("total")
  const ColorKey: string := Quoted("color")

  /** One progress bar. The title buffer holds 80 characters, but the
      loader never writes more than 49. */
  datatype Bar = Bar(title: string, current: Int32, total: Int32, color: Rgb)

  /** `{"", 0, 0, RGB(0, 0, 0)}`: every record starts from this. */
  const DefaultBar: Bar := Bar("", 0, 0, Black)

  /** The ways the scanner can reach behaviour that C leaves undefined:
      `strchr` finds no colon after `"title"` and `+ 1` is applied to NULL;
      the colour `sscanf` fails and HexToColor reads an uninitialised
      buffer; a `%d` field does not fit in an `int`. */
  datatype Ub = TitleWithoutColon | ColorUnread | IntOutOfRange

  datatype Defined<T> = Ok(value: T) | Undefined(why: Ub) {
    predicate IsFailure() {
      Undefined?
    }

    function PropagateFailure<U>(): Defined<U>
      requires Undefined?
    {
      Undefined(why)
    }

    function Extract(): T
      requires Ok?
    {
      value
    }
  }

  /** The text the scanner walks: at most `BufferSize - 1` of the characters
      `fread` delivered, ended by the NUL written after them or by an
      earlier NUL among them. */
  function BufferText(delivered: string): (text: string)
    ensures |text| <= BufferSize - 1 && |text| <= |delivered|
    ensures text == delivered[..|text|]
    ensures '\0' !in text
    ensures |text| < Min(|delivered|, BufferSize - 1) ==> delivered[|text|] == '\0'
  {
    var read := delivered[..Min(|delivered|, BufferSize - 1)];
    FindCharFirst(read, 0, '\0');
    match FindChar(read, 0, '\0')
    case None => read
    case Some(z) => read[..z]
  }

  // ------------------------------------------------------------ fields

  /** The title: the text after the first `:` that follows `"title"`,
      read by ` "%49[^"]"`; empty when the key is absent or the pattern
      does not match. */
  function ReadTitle(text: string, b: nat): (r: Defined<string>)
    ensures Find(text, b, TitleKey).None? ==> r == Ok("")
    ensures var t := Find(text, b, TitleKey);
            t.Some? && FindChar(text, t.value, ':').None? ==> r == Undefined(TitleWithoutColon)
    ensures var t := Find(text, b, TitleKey);
            t.Some? && FindChar(text, t.value, ':').Some? ==>
              r.Ok? && r.value == QuotedField(text, FindChar(text, t.value, ':').value + 1, TitleWidth)
  {
    TitleAt(text, Find(text, b, TitleKey))
  }

  /** The title `sscanf` reads from the key found at `t`, if any. */
  function TitleAt(text: string, t: Option<nat>): Defined<string> {
    match t
    case None => Ok("")
    case Some(t) =>
      match FindChar(text, t, ':')
      case None => Undefined(TitleWithoutColon)
      case Some(c) => Ok(QuotedField(text, c + 1, TitleWidth))
  }

  /** A title read fits the 50-byte buffer with its terminator and holds
      no double quote. */
  lemma ReadTitleFits(text: string, b: nat)
    ensures ReadTitle(text, b).Ok? ==> |ReadTitle(text, b).value| <= TitleWidth && '"' !in ReadTitle(text, b).value
  {
  }

  /** `"current": %d` or `"total": %d` at the first occurrence of the key:
      the colon must follow the key directly; 0 when the key is absent or
      the pattern does not match. */
  function ReadInt(text: string, b: nat, key: string): (r: Defined<Int32>)
    ensures Find(text, b, key).None? ==> r == Ok(0)
    ensures var p := Find(text, b, key);
            p.Some? && !(p.value + |key| < |text| && text[p.value + |key|] == ':') ==> r == Ok(0)
    ensures var p := Find(text, b, key);
            p.Some? && p.value + |key| < |text| && text[p.value + |key|] == ':' ==>
              var n := ScanInt(text, p.value + |key| + 1);
              (n.None? ==> r == Ok(0)) &&
              (n.Some? && InInt32(n.value.value) ==> r == Ok(n.value.value)) &&
              (n.Some? && !InInt32(n.value.value) ==> r == Undefined(IntOutOfRange))
  {
    IntAt(text, Find(text, b, key), key)
  }

  /** The number `sscanf` reads from the key found at `p`, if any. */
  function IntAt(text: string, p: Option<nat>, key: string): Defined<Int32> {
    match p
    case None => Ok(0)
    case Some(p) =>
      var q := p + |key|;
      if q < |text| && text[q] == ':' then
        match ScanInt(text, q + 1)
        case None => Ok(0)
        case Some(n) => if InInt32(n.value) then Ok(n.value) else Undefined(IntOutOfRange)
      else Ok(0)
  }

  /** `"color": "%7[^"]"` at the first occurrence of the key, converted by
      HexToColor; black when the key is absent. */
  function ReadColor(text: string, b: nat): (r: Defined<Rgb>)
    ensures Find(text, b, ColorKey).None? ==> r == Ok(Black)
    ensures var p := Find(text, b, ColorKey);
            p.Some? && !(p.value + |ColorKey| < |text| && text[p.value + |ColorKey|] == ':') ==>
              r == Undefined(ColorUnread)
    ensures var p := Find(text, b, ColorKey);
            p.Some? && p.value + |ColorKey| < |text| && text[p.value + |ColorKey|] == ':' ==>
              var hex := QuotedField(text, p.value + |ColorKey| + 1, ColorWidth);
              (hex == [] ==> r == Undefined(ColorUnread)) && (hex != [] ==> r == Ok(HexToColor(hex)))
  {
    ColorAt(text, Find(text, b, ColorKey))
  }

  /** The colour read from the key found at `p`, if any. */
  function ColorAt(text: string, p: Option<nat>): Defined<Rgb> {
    match p
    case None => Ok(Black)
    case Some(p) =>
      var q := p + |ColorKey|;
      var hex := if q < |text| && text[q] == ':' then QuotedField(text, q + 1, ColorWidth) else "";
      if hex == "" then Undefined(ColorUnread) else Ok(HexToColor(hex))
  }

  /** The record whose `{` is at `b`: defined exactly when its four fields
      are, and then made of them. Every key is searched from `b` to the end
      of the text, not to the record's `}`. */
  function ParseRecord(text: string, b: nat): (r: Defined<Bar>)
    ensures r.Ok? <==> ReadTitle(text, b).Ok? && ReadInt(text, b, CurrentKey).Ok? &&
                       ReadInt(text, b, TotalKey).Ok? && ReadColor(text, b).Ok?
    ensures r.Ok? ==> r.value == Bar(ReadTitle(text, b).value, ReadInt(text, b, CurrentKey).value,
                                     ReadInt(text, b, TotalKey).value, ReadColor(text, b).value)
  {
    var title :- ReadTitle(text, b);
    var current :- ReadInt(text, b, CurrentKey);
    var total :- ReadInt(text, b, TotalKey);
    var color :- ReadColor(text, b);
    Ok(Bar(title, current, total, color))
  }

  /** A field keeps its default when its key does not occur from the
      record's `{` to the end of the text. */
  lemma MissingFieldsKeepDefaults(text: string, b: nat)
    requires ParseRecord(text, b).Ok?
    ensures Find(text, b, TitleKey).None? ==> ParseRecord(text, b).value.title == ""
    ensures Find(text, b, CurrentKey).None? ==> ParseRecord(text, b).value.current == 0
    ensures Find(text, b, TotalKey).None? ==> ParseRecord(text, b).value.total == 0
    ensures Find(text, b, ColorKey).None? ==> ParseRecord(text, b).value.color == Black
  {
  }

  /** A number keeps its default 0 when the colon does not follow its key
      directly. */
  lemma DetachedColonKeepsZero(text: string, b: nat)
    requires ParseRecord(text, b).Ok?
    ensures forall p :: Find(text, b, CurrentKey) == Some(p) && p + |CurrentKey| < |text| && text[p + |CurrentKey|] != ':'
              ==> ParseRecord(text, b).value.current == 0
    ensures forall p :: Find(text, b, TotalKey) == Some(p) && p + |TotalKey| < |text| && text[p + |TotalKey|] != ':'
              ==> ParseRecord(text, b).value.total == 0
  {
  }

  /** The lookups run past the record's `}`: when no key occurs between
      the record's `{` at `b` and a later position `c`, such as the next
      record's `{`, the record reads every field exactly as a record
      starting at `c` does. */
  lemma {:induction false} KeysReachPastRecord(text: string, b: nat, c: nat)
    requires b <= c
    requires forall i :: b <= i < c ==>
               !OccursAt(text, i, TitleKey) && !OccursAt(text, i, CurrentKey) &&
               !OccursAt(text, i, TotalKey) && !OccursAt(text, i, ColorKey)
    ensures ParseRecord(text, b) == ParseRecord(text, c)
  {
    FindSkips(text, b, c, TitleKey);
    FindSkips(text, b, c, CurrentKey);
    FindSkips(text, b, c, TotalKey);
    FindSkips(text, b, c, ColorKey);
    assert ReadTitle(text, b) == ReadTitle(text, c);
    assert ReadInt(text, b, CurrentKey) == ReadInt(text, c, CurrentKey);
    assert ReadInt(text, b, TotalKey) == ReadInt(text, c, TotalKey);
    assert ReadColor(text, b) == ReadColor(text, c);
  }

  /** One field on its own: a record without `"total"` takes the total of
      the first later record that has one. */
  lemma {:induction false} TotalFromLaterRecord(text: string, b: nat, c: nat)
    requires b <= c
    requires forall i :: b <= i < c ==> !OccursAt(text, i, TotalKey)
    ensures ReadInt(text, b, TotalKey) == ReadInt(text, c, TotalKey)
  {
    FindSkips(text, b, c, TotalKey);
  }

  // ------------------------------------------------------- round trips

  /** `key: value`: how the default configuration writes each field, the
      title and the colour quoted, the numbers bare. */
  function Entry(key: string, value: string): string {
    key + ": " + value
  }

  /** Where the parts of an entry at `p` lie. */
  lemma EntryAt(text: string, p: nat, key: string, value: string)
    requires OccursAt(text, p, Entry(key, value))
    ensures OccursAt(text, p, key) && p + |key| + 2 <= |text|
    ensures text[p + |key|] == ':' && text[p + |key| + 1] == ' '
    ensures OccursAt(text, p + |key| + 2, value)
  {
    var e := Entry(key, value);
    var z := p + |e|;
    assert text[p..z] == e;
    assert forall k :: p <= k < z ==> text[k] == e[k - p];
    assert text[p + |key| + 2..z] == value;
  }

  /** A title written as `"title": "..."` at `p`, with no `"title"` from the
      record's `{` at `b` to `p`, reads back, cut to its first 49
      characters. */
  lemma TitleRoundTrip(text: string, b: nat, p: nat, title: string)
    requires b <= p && Absent(text, b, p, TitleKey)
    requires OccursAt(text, p, Entry(TitleKey, Quoted(title))) && '"' !in title
    ensures ReadTitle(text, b) == Ok(title[..Min(|title|, TitleWidth)])
  {
    var q := p + |TitleKey|;
    EntryAt(text, p, TitleKey, Quoted(title));
    FindAt(text, b, p, TitleKey);
    ColonAfterTitleKey(text, p);
    QuotedValueAt(text, q + 1, title, TitleWidth);
  }

  /** The first colon from a `"title"` at `p` is the one right after it. */
  lemma ColonAfterTitleKey(text: string, p: nat)
    requires OccursAt(text, p, TitleKey) && p + |TitleKey| < |text| && text[p + |TitleKey|] == ':'
    ensures FindChar(text, p, ':') == Some(p + |TitleKey|)
  {
    var q := p + |TitleKey|;
    assert forall k :: p <= k < q ==> text[k] == text[p..q][k - p];
    FindCharAt(text, p, ':', q);
  }

  /** ` "%N[^"]` at `i` reads a value written as ` "value"`, cut to the
      width. */
  lemma QuotedValueAt(text: string, i: nat, value: string, width: nat)
    requires i < |text| && text[i] == ' ' && OccursAt(text, i + 1, Quoted(value)) && '"' !in value
    ensures QuotedField(text, i, width) == value[..Min(|value|, width)]
  {
    var e := i + 1 + |value| + 2;
    assert text[i + 1] == text[i + 1..e][0];
    assert text[i + 2..e - 1] == text[i + 1..e][1..|value| + 1];
    assert text[e - 1] == text[i + 1..e][|value| + 1];
    SkipSpaceAt(text, i, i + 1);
    ScanUntilQuoteAt(text, i + 2, value, width);
  }

  /** A number written as `"key": n` at `p`, ended by a character that is
      not a digit, reads back as `n` when no `key` lies from the record's
      `{` at `b` to `p`. */
  lemma IntRoundTrip(text: string, b: nat, p: nat, key: string, n: Int32)
    requires b <= p && Absent(text, b, p, key)
    requires OccursAt(text, p, Entry(key, FormatInt(n)))
    requires p + |Entry(key, FormatInt(n))| == |text| || !IsDigit(text[p + |Entry(key, FormatInt(n))|])
    ensures ReadInt(text, b, key) == Ok(n)
  {
    assert InInt32(n);
    var q := p + |key|;
    EntryAt(text, p, key, FormatInt(n));
    FindAt(text, b, p, key);
    var e := q + 2 + |FormatInt(n)|;
    assert p + |Entry(key, FormatInt(n))| == e;
    assert SpaceRun(text, q + 1, q + 2);
    ScanIntAt(text, q + 1, q + 2, n);
    IntFound(text, b, p, key, n, e);
  }

  /** The number after the key `strstr` finds and its colon. */
  lemma IntFound(text: string, b: nat, p: nat, key: string, v: int, e: nat)
    requires Find(text, b, key) == Some(p)
    requires p + |key| < |text|
    requires text[p + |key|] == ':'
    requires ScanInt(text, p + |key| + 1) == Some(Scanned(v, e))
    requires InInt32(v)
    ensures ReadInt(text, b, key) == Ok(v)
  {
  }

  /** A colour written by FormatColor as `"color": "#RRGGBB"` at `p` reads
      back as that colour when no `"color"` lies from the record's `{` at
      `b` to `p`. */
  lemma ColorRoundTrip(text: string, b: nat, p: nat, c: Rgb)
    requires b <= p && Absent(text, b, p, ColorKey)
    requires OccursAt(text, p, Entry(ColorKey, Quoted(FormatColor(c))))
    ensures ReadColor(text, b) == Ok(c)
  {
    var hex := FormatColor(c);
    EntryAt(text, p, ColorKey, Quoted(hex));
    FindAt(text, b, p, ColorKey);
    assert '"' !in hex by {
      assert forall k :: 1 <= k < |hex| ==> hex[k] == hex[1..][k - 1];
    }
    QuotedValueAt(text, p + |ColorKey| + 1, hex, ColorWidth);
    assert hex[..Min(|hex|, ColorWidth)] == hex;
    HexToColorRoundTrip(c);
    ColorFound(text, b, p, hex);
  }

  /** The colour after the key `strstr` finds and its colon. */
  lemma ColorFound(text: string, b: nat, p: nat, hex: string)
    requires Find(text, b, ColorKey) == Some(p)
    requires p + |ColorKey| < |text|
    requires text[p + |ColorKey|] == ':'
    requires QuotedField(text, p + |ColorKey| + 1, ColorWidth) == hex
    requires hex != []
    ensures ReadColor(text, b) == Ok(HexToColor(hex))
  {
  }

  function TitleEntry(bar: Bar): string {
    Entry(TitleKey, Quoted(bar.title))
  }

  function CurrentEntry(bar: Bar): string {
    Entry(CurrentKey, FormatInt(bar.current))
  }

  function TotalEntry(bar: Bar): string {
    Entry(TotalKey, FormatInt(bar.total))
  }

  function ColorEntry(bar: Bar): string {
    Entry(ColorKey, Quoted(FormatColor(bar.color)))
  }

  /** Offsets of the entries from the record's `{`. */
  function CurrentStart(bar: Bar): nat {
    1 + |TitleEntry(bar)| + 2
  }

  function TotalStart(bar: Bar): nat {
    CurrentStart(bar) + |CurrentEntry(bar)| + 2
  }

  function ColorStart(bar: Bar): nat {
    TotalStart(bar) + |TotalEntry(bar)| + 2
  }

  /** A record as the default configuration writes it:
      `{"title": "...", "current": n, "total": n, "color": "#RRGGBB"}`. */
  function RecordText(bar: Bar): string {
    "{" + TitleEntry(bar) + ", " + CurrentEntry(bar) + ", " + TotalEntry(bar) + ", " + ColorEntry(bar) + "}"
  }

  /** The `, ` between two entries. */
  predicate Separator(text: string, s: nat) {
    s + 2 <= |text| && text[s] == ',' && text[s + 1] == ' '
  }

  /** The `{`, the title entry and the `, ` after it, from `b`. */
  predicate TitlePart(text: string, b: nat, title: string) {
    OccursAt(text, b + 1, Entry(TitleKey, Quoted(title))) && text[b] == '{' &&
    Separator(text, b + 1 + |Entry(TitleKey, Quoted(title))|)
  }

  /** A number entry and the `, ` after it, from `p`. */
  predicate NumberPart(text: string, p: nat, key: string, n: int) {
    OccursAt(text, p, Entry(key, FormatInt(n))) && Separator(text, p + |Entry(key, FormatInt(n))|)
  }

  /** The colour entry and the closing `}`, from `p`. */
  predicate ColorPart(text: string, p: nat, c: Rgb) {
    OccursAt(text, p, Entry(ColorKey, Quoted(FormatColor(c)))) &&
    p + |Entry(ColorKey, Quoted(FormatColor(c)))| < |text| &&
    text[p + |Entry(ColorKey, Quoted(FormatColor(c)))|] == '}'
  }

  /** The record `bar` laid out as RecordText writes it, with its `{` at
      `b`. */
  predicate RecordAt(text: string, b: nat, bar: Bar) {
    TitlePart(text, b, bar.title) &&
    NumberPart(text, b + CurrentStart(bar), CurrentKey, bar.current) &&
    NumberPart(text, b + TotalStart(bar), TotalKey, bar.total) &&
    ColorPart(text, b + ColorStart(bar), bar.color)
  }

  /** RecordText lays out its record as RecordAt describes, whatever
      follows it. */
  lemma RecordTextAt(bar: Bar, rest: string)
    ensures RecordAt(RecordText(bar) + rest, 0, bar)
  {
    var te, ce, oe, ke := TitleEntry(bar), CurrentEntry(bar), TotalEntry(bar), ColorEntry(bar);
    var t2 := "{" + te + ", ";
    var t4 := t2 + ce + ", ";
    var t6 := t4 + oe + ", ";
    var t8 := t6 + ke + "}";
    var text := t8 + rest;
    assert RecordText(bar) == t8;
    assert t2 <= t4 <= t6 <= t8 <= text;
    assert |t2| == CurrentStart(bar) && |t4| == TotalStart(bar) && |t6| == ColorStart(bar);
    assert TitlePart(text, 0, bar.title) by {
      EntryThenSeparator("{", te, text);
      assert text[0] == t2[0];
    }
    assert NumberPart(text, CurrentStart(bar), CurrentKey, bar.current) by {
      EntryThenSeparator(t2, ce, text);
    }
    assert NumberPart(text, TotalStart(bar), TotalKey, bar.total) by {
      EntryThenSeparator(t4, oe, text);
    }
    assert ColorPart(text, ColorStart(bar), bar.color) by {
      OccursAtEnd(t6, ke);
      OccursInPrefix(t6 + ke, text, |t6|, ke);
      assert text[|t6| + |ke|] == t8[|t6| + |ke|];
    }
  }

  /** An entry followed by `, ` at the end of a prefix of the text. */
  lemma EntryThenSeparator(pre: string, e: string, text: string)
    requires pre + e + ", " <= text
    ensures OccursAt(text, |pre|, e) && Separator(text, |pre| + |e|)
  {
    var t := pre + e + ", ";
    OccursAtEnd(pre, e);
    OccursInPrefix(pre + e, text, |pre|, e);
    assert text[|pre| + |e|] == t[|pre| + |e|] && text[|pre| + |e| + 1] == t[|pre| + |e| + 1];
  }

  /** What is appended occurs where the text ended. */
  lemma OccursAtEnd(t: string, x: string)
    ensures OccursAt(t + x, |t|, x)
  {
    assert (t + x)[|t|..|t| + |x|] == x;
  }

  /** An occurrence in a prefix is an occurrence in the whole. */
  lemma OccursInPrefix(t: string, u: string, p: nat, pat: string)
    requires OccursAt(t, p, pat) && t <= u
    ensures OccursAt(u, p, pat)
  {
    assert u[p..p + |pat|] == t[p..p + |pat|];
  }

  /** No quoted key other than `word` and `value` lies in the entry
      `"word": "value"` at `p`, followed by `c`. */
  lemma QuotedEntryAbsent(text: string, p: nat, word: string, value: string, c: char, name: string)
    requires OccursAt(text, p, Entry(Quoted(word), Quoted(value)))
    requires p + |Entry(Quoted(word), Quoted(value))| < |text| && text[p + |Entry(Quoted(word), Quoted(value))|] == c
    requires '"' !in word
    requires '"' !in value
    requires '"' !in name
    requires ':' !in name
    requires c != '"'
    requires c !in name
    requires word != name
    requires value != name
    ensures Absent(text, p, p + |Entry(Quoted(word), Quoted(value))|, Quoted(name))
  {
    var key := Quoted(word);
    var v := p + |key| + 2;
    EntryAt(text, p, key, Quoted(value));
    QuotedWordAbsent(text, p, word, ':', name);
    QuoteFreeAbsent(text, p + |key|, v, name);
    QuotedWordAbsent(text, v, value, c, name);
    AbsentJoin(text, p, p + |key|, v, Quoted(name));
    AbsentJoin(text, p, v, v + |value| + 2, Quoted(name));
  }

  /** No quoted key other than `word` lies in the entry `"word": n` at
      `p`. */
  lemma NumberEntryAbsent(text: string, p: nat, word: string, n: int, name: string)
    requires OccursAt(text, p, Entry(Quoted(word), FormatInt(n)))
    requires '"' !in word && '"' !in name && ':' !in name && word != name
    ensures Absent(text, p, p + |Entry(Quoted(word), FormatInt(n))|, Quoted(name))
  {
    var key := Quoted(word);
    var v := p + |key| + 2;
    var z := v + |FormatInt(n)|;
    EntryAt(text, p, key, FormatInt(n));
    QuotedWordAbsent(text, p, word, ':', name);
    FormatIntChars(n);
    assert forall k :: v <= k < z ==> text[k] == text[v..z][k - v];
    QuoteFreeAbsent(text, p + |key|, z, name);
    AbsentJoin(text, p, p + |key|, z, Quoted(name));
  }

  /** The names of the keys after the title contain no quote, colon or
      comma, and differ from `title`. */
  lemma KeyName(name: string)
    requires name == "current" || name == "total" || name == "color"
    ensures '"' !in name && ':' !in name && ',' !in name && name != "title"
  {
  }

  /** The `{`, the title entry and the `, ` after it hold no key other
      than `"title"` and the quoted title. */
  lemma TitlePartAbsent(text: string, b: nat, title: string, name: string)
    requires TitlePart(text, b, title)
    requires '"' !in title && '"' !in name && ':' !in name && ',' !in name
    requires name != "title" && name != title
    ensures Absent(text, b, b + 1 + |Entry(TitleKey, Quoted(title))| + 2, Quoted(name))
  {
    var key := Quoted(name);
    var s := b + 1 + |Entry(TitleKey, Quoted(title))|;
    Mismatch(text, b, key, 0);
    SeparatorAbsent(text, s, name);
    QuotedEntryAbsent(text, b + 1, "title", title, ',', name);
    AbsentJoin(text, b, b + 1, s, key);
    AbsentJoin(text, b, s, s + 2, key);
  }

  /** A number entry and the `, ` after it hold no key other than their
      own. */
  lemma NumberPartAbsent(text: string, p: nat, word: string, n: int, name: string)
    requires NumberPart(text, p, Quoted(word), n)
    requires '"' !in word && '"' !in name && ':' !in name && word != name
    ensures Absent(text, p, p + |Entry(Quoted(word), FormatInt(n))| + 2, Quoted(name))
  {
    var s := p + |Entry(Quoted(word), FormatInt(n))|;
    NumberEntryAbsent(text, p, word, n, name);
    SeparatorAbsent(text, s, name);
    AbsentJoin(text, p, s, s + 2, Quoted(name));
  }

  /** The `, ` between two entries holds no key. */
  lemma SeparatorAbsent(text: string, s: nat, name: string)
    requires Separator(text, s)
    ensures Absent(text, s, s + 2, Quoted(name))
  {
    QuoteFreeAbsent(text, s, s + 2, name);
  }

  /** A number entry followed by `, ` reads back as its number. */
  lemma NumberPartRead(text: string, b: nat, p: nat, key: string, n: Int32)
    requires b <= p && Absent(text, b, p, key)
    requires NumberPart(text, p, key, n)
    ensures ReadInt(text, b, key) == Ok(n)
  {
    IntRoundTrip(text, b, p, key, n);
  }

  /** A record laid out as RecordText writes it, anywhere in the text,
      reads back as the bar it was written from, provided the title fits
      and is not spelled like another key (TitleShadowsKey covers those
      titles). */
  lemma RecordRoundTrip(text: string, b: nat, bar: Bar)
    requires RecordAt(text, b, bar)
    requires |bar.title| <= TitleWidth && '"' !in bar.title
    requires bar.title != "current" && bar.title != "total" && bar.title != "color"
    ensures ParseRecord(text, b) == Ok(bar)
  {
    RecordTitleRead(text, b, bar.title);
    RecordCurrentRead(text, b, bar);
    RecordTotalRead(text, b, bar);
    RecordColorRead(text, b, bar);
  }

  lemma RecordTitleRead(text: string, b: nat, title: string)
    requires TitlePart(text, b, title)
    requires |title| <= TitleWidth && '"' !in title
    ensures ReadTitle(text, b) == Ok(title)
  {
    Mismatch(text, b, TitleKey, 0);
    TitleRoundTrip(text, b, b + 1, title);
    assert title[..Min(|title|, TitleWidth)] == title;
  }

  lemma RecordCurrentRead(text: string, b: nat, bar: Bar)
    requires TitlePart(text, b, bar.title)
    requires NumberPart(text, b + CurrentStart(bar), CurrentKey, bar.current)
    requires '"' !in bar.title && bar.title != "current"
    ensures ReadInt(text, b, CurrentKey) == Ok(bar.current)
  {
    KeyName("current");
    TitlePartAbsent(text, b, bar.title, "current");
    NumberPartRead(text, b, b + CurrentStart(bar), CurrentKey, bar.current);
  }

  lemma RecordTotalRead(text: string, b: nat, bar: Bar)
    requires TitlePart(text, b, bar.title)
    requires NumberPart(text, b + CurrentStart(bar), CurrentKey, bar.current)
    requires NumberPart(text, b + TotalStart(bar), TotalKey, bar.total)
    requires '"' !in bar.title && bar.title != "total"
    ensures ReadInt(text, b, TotalKey) == Ok(bar.total)
  {
    var c, t := b + CurrentStart(bar), b + TotalStart(bar);
    KeyName("total");
    TitlePartAbsent(text, b, bar.title, "total");
    NumberPartAbsent(text, c, "current", bar.current, "total");
    AbsentJoin(text, b, c, t, TotalKey);
    NumberPartRead(text, b, t, TotalKey, bar.total);
  }

  lemma RecordColorRead(text: string, b: nat, bar: Bar)
    requires TitlePart(text, b, bar.title)
    requires NumberPart(text, b + CurrentStart(bar), CurrentKey, bar.current)
    requires NumberPart(text, b + TotalStart(bar), TotalKey, bar.total)
    requires ColorPart(text, b + ColorStart(bar), bar.color)
    requires '"' !in bar.title && bar.title != "color"
    ensures ReadColor(text, b) == Ok(bar.color)
  {
    ColorPrefixAbsent(text, b, bar);
    ColorRoundTrip(text, b, b + ColorStart(bar), bar.color);
  }

  /** No `"color"` lies before the colour entry of a record. */
  lemma ColorPrefixAbsent(text: string, b: nat, bar: Bar)
    requires TitlePart(text, b, bar.title)
    requires NumberPart(text, b + CurrentStart(bar), CurrentKey, bar.current)
    requires NumberPart(text, b + TotalStart(bar), TotalKey, bar.total)
    requires '"' !in bar.title && bar.title != "color"
    ensures Absent(text, b, b + ColorStart(bar), ColorKey)
  {
    var c, t, k := b + CurrentStart(bar), b + TotalStart(bar), b + ColorStart(bar);
    KeyName("color");
    KeyName("current");
    KeyName("total");
    TitlePartAbsent(text, b, bar.title, "color");
    NumberPartAbsent(text, c, "current", bar.current, "color");
    NumberPartAbsent(text, t, "total", bar.total, "color");
    AbsentJoin(text, b, c, t, ColorKey);
    AbsentJoin(text, b, t, k, ColorKey);
  }

  /** A record written by RecordText, followed by any text, reads back as
      the bar it was written from. */
  lemma RecordTextRoundTrip(bar: Bar, rest: string)
    requires |bar.title| <= TitleWidth && '"' !in bar.title
    requires bar.title != "current" && bar.title != "total" && bar.title != "color"
    ensures ParseRecord(RecordText(bar) + rest, 0) == Ok(bar)
  {
    RecordTextAt(bar, rest);
    RecordRoundTrip(RecordText(bar) + rest, 0, bar);
  }

  /** The first record of the default configuration,
      `{"title": "Bar 1", "current": 50, "total": 100, "color": "#FF5733"}`,
      reads back as that bar. */
  lemma ExampleRecord()
    ensures ParseRecord(RecordText(Bar("Bar 1", 50, 100, Rgb(255, 87, 51))), 0) == Ok(Bar("Bar 1", 50, 100, Rgb(255, 87, 51)))
  {
    var bar := Bar("Bar 1", 50, 100, Rgb(255, 87, 51));
    RecordTextRoundTrip(bar, []);
    assert RecordText(bar) + [] == RecordText(bar);
  }

  /** A title spelled like a later key: every key is searched from the
      record's `{`, so the search for that key stops at the title's quoted
      value, which is followed by `,` rather than `:`. */
  lemma TitleShadowsKey(text: string, b: nat, bar: Bar)
    requires RecordAt(text, b, bar)
    requires bar.title == "current" || bar.title == "total" || bar.title == "color"
    ensures bar.title == "current" ==> ParseRecord(text, b) == Ok(bar.(current := 0))
    ensures bar.title == "total" ==> ParseRecord(text, b) == Ok(bar.(total := 0))
    ensures bar.title == "color" ==> ParseRecord(text, b) == Undefined(ColorUnread)
  {
    if bar.title == "current" {
      ShadowedCurrent(text, b, bar);
    } else if bar.title == "total" {
      ShadowedTotal(text, b, bar);
    } else {
      ShadowedColor(text, b, bar);
    }
  }

  lemma ShadowedCurrent(text: string, b: nat, bar: Bar)
    requires RecordAt(text, b, bar) && bar.title == "current"
    ensures ParseRecord(text, b) == Ok(bar.(current := 0))
  {
    KeyName("current");
    RecordTitleRead(text, b, bar.title);
    TitleValueFound(text, b, bar.title);
    RecordTotalRead(text, b, bar);
    RecordColorRead(text, b, bar);
  }

  lemma ShadowedTotal(text: string, b: nat, bar: Bar)
    requires RecordAt(text, b, bar) && bar.title == "total"
    ensures ParseRecord(text, b) == Ok(bar.(total := 0))
  {
    KeyName("total");
    RecordTitleRead(text, b, bar.title);
    TitleValueFound(text, b, bar.title);
    RecordCurrentRead(text, b, bar);
    RecordColorRead(text, b, bar);
  }

  lemma ShadowedColor(text: string, b: nat, bar: Bar)
    requires RecordAt(text, b, bar) && bar.title == "color"
    ensures ParseRecord(text, b) == Undefined(ColorUnread)
  {
    KeyName("color");
    RecordTitleRead(text, b, bar.title);
    TitleValueFound(text, b, bar.title);
    RecordCurrentRead(text, b, bar);
    RecordTotalRead(text, b, bar);
  }

  /** The search for a key spelled like the title, from the record's `{`,
      stops at the title's quoted value, which a `,` follows. */
  lemma TitleValueFound(text: string, b: nat, title: string)
    requires TitlePart(text, b, title)
    requires '"' !in title && ':' !in title && title != "title"
    ensures var v := b + 1 + |TitleKey| + 2;
            Find(text, b, Quoted(title)) == Some(v) &&
            v + |Quoted(title)| < |text| && text[v + |Quoted(title)|] == ','
  {
    var key := Quoted(title);
    var v := b + 1 + |TitleKey| + 2;
    EntryAt(text, b + 1, TitleKey, key);
    Mismatch(text, b, key, 0);
    QuotedWordAbsent(text, b + 1, "title", ':', title);
    QuoteFreeAbsent(text, b + 1 + |TitleKey|, v, title);
    AbsentJoin(text, b, b + 1, b + 1 + |TitleKey|, key);
    AbsentJoin(text, b, b + 1 + |TitleKey|, v, key);
    FindAt(text, b, v, key);
  }

  // ------------------------------------------------------------ cursor

  /** strstr with a one-character needle finds what strchr finds. */
  lemma {:induction false} FindSingle(text: string, from: nat, c: char)
    ensures Find(text, from, [c]) == FindChar(text, from, c)
    decreases |text| - from
  {
    if from < |text| {
      assert OccursAt(text, from, [c]) <==> text[from] == c;
      FindSingle(text, from + 1, c);
    }
  }

  /** The positions of the `{` that the scan loop visits, starting from the
      cursor `pos` with room for `room` more bars. The loop searches with
      `strstr` for one-character needles, written here as FindChar
      (FindSingle shows the two agree): from each `{` the cursor
      moves to just past the next `}`; the walk stops at the end of the
      text, when no `{` or no `}` remains, or when the room is used up. */
  function RecordStarts(text: string, pos: nat, room: nat): (r: seq<nat>)
    requires pos <= |text|
    ensures |r| <= room
    decreases |text| - pos
  {
    if pos == |text| || room == 0 then []
    else
      match FindChar(text, pos, '{')
      case None => []
      case Some(b) =>
        match FindChar(text, b, '}')
        case None => [b]
        case Some(e) => [b] + RecordStarts(text, e + 1, room - 1)
  }

  /** The walk visits `{` characters only, each at most once, in the order
      of the text. */
  lemma {:induction false} RecordStartsAreBraces(text: string, pos: nat, room: nat)
    requires pos <= |text|
    ensures var r := RecordStarts(text, pos, room);
            (forall k :: 0 <= k < |r| ==> pos <= r[k] < |text| && text[r[k]] == '{') &&
            (forall k, l :: 0 <= k < l < |r| ==> r[k] < r[l])
    decreases |text| - pos
  {
    if pos < |text| && room > 0 && FindChar(text, pos, '{').Some? {
      var b := FindChar(text, pos, '{').value;
      if FindChar(text, b, '}').Some? {
        var e := FindChar(text, b, '}').value;
        RecordStartsStep(text, pos, room, b, e);
        RecordStartsAreBraces(text, e + 1, room - 1);
        var r := RecordStarts(text, pos, room);
        assert forall k :: 1 <= k < |r| ==> r[k] == RecordStarts(text, e + 1, room - 1)[k - 1];
      }
    }
  }

  /** The records at the given positions, or the first undefined behaviour
      met while reading them in order. */
  function ParseAll(text: string, starts: seq<nat>): (r: Defined<seq<Bar>>)
    ensures r.Ok? ==> |r.value| == |starts|
    decreases |starts|, 1
  {
    if starts == [] then Ok([]) else ParseFirst(text, starts)
  }

  /** The first record, then the rest; `:-` stops at the first undefined
      behaviour. */
  function ParseFirst(text: string, starts: seq<nat>): (r: Defined<seq<Bar>>)
    requires starts != []
    ensures r.Ok? ==> |r.value| == |starts|
    decreases |starts|, 0
  {
    var bar :- ParseRecord(text, starts[0]);
    var rest :- ParseAll(text, starts[1..]);
    Ok([bar] + rest)
  }

  /** Reading the records in order is defined exactly when every record is
      defined, and then the `k`-th bar is the `k`-th record. */
  lemma {:induction false} ParseAllRecords(text: string, starts: seq<nat>)
    ensures ParseAll(text, starts).Ok? <==> forall k :: 0 <= k < |starts| ==> ParseRecord(text, starts[k]).Ok?
    ensures ParseAll(text, starts).Ok? ==>
              forall k :: 0 <= k < |starts| ==> ParseAll(text, starts).value[k] == ParseRecord(text, starts[k]).value
  {
    if starts != [] {
      ParseAllRecords(text, starts[1..]);
      assert forall k :: 1 <= k < |starts| ==> starts[1..][k - 1] == starts[k];
    }
  }

  /** The `k`-th bar read. */
  lemma ParseAllAt(text: string, starts: seq<nat>, k: nat)
    requires ParseAll(text, starts).Ok? && k < |starts|
    ensures ParseRecord(text, starts[k]).Ok? && ParseAll(text, starts).value[k] == ParseRecord(text, starts[k]).value
  {
    ParseAllRecords(text, starts);
  }

  /** What one run of the scan loop appends when `room` bars still fit. */
  function Load(text: string, room: nat): (r: Defined<seq<Bar>>)
    ensures r.Ok? ==> |r.value| == |RecordStarts(text, 0, room)| <= room
  {
    ParseAll(text, RecordStarts(text, 0, room))
  }

  /** A successful load holds one bar per start, the `k`-th read from the
      `k`-th start. */
  lemma LoadAt(text: string, room: nat, k: nat)
    requires Load(text, room).Ok? && k < |RecordStarts(text, 0, room)|
    ensures |Load(text, room).value| == |RecordStarts(text, 0, room)|
    ensures ParseRecord(text, RecordStarts(text, 0, room)[k]).Ok?
    ensures Load(text, room).value[k] == ParseRecord(text, RecordStarts(text, 0, room)[k]).value
  {
    ParseAllAt(text, RecordStarts(text, 0, room), k);
  }

  // ----------------------------------------------- well-formed counting

  predicate IsBrace(c: char) {
    c == '{' || c == '}'
  }

  /** The braces of `s`, in order. */
  function Braces(s: string): string {
    if s == [] then [] else BraceOf(s[0]) + Braces(s[1..])
  }

  function BraceOf(c: char): string {
    if IsBrace(c) then [c] else []
  }

  /** `n` records whose braces neither nest nor go unclosed. */
  function Pairs(n: nat): (r: string)
    ensures |r| == 2 * n
  {
    if n == 0 then [] else "{}" + Pairs(n - 1)
  }

  lemma {:induction false} BracesAppend(s: string, t: string)
    ensures Braces(s + t) == Braces(s) + Braces(t)
  {
    if s != [] {
      calc {
        Braces(s + t);
        { assert (s + t)[0] == s[0] && (s + t)[1..] == s[1..] + t; }
        BraceOf(s[0]) + Braces(s[1..] + t);
        { BracesAppend(s[1..], t); }
        BraceOf(s[0]) + (Braces(s[1..]) + Braces(t));
        Braces(s) + Braces(t);
      }
    } else {
      assert s + t == t;
    }
  }

  /** A text without `c` does not start its braces with `c`. */
  lemma {:induction false} BracesAvoid(s: string, c: char, t: string)
    requires forall i :: 0 <= i < |s| ==> s[i] != c
    ensures Braces(s) == [] || (Braces(s) + t)[0] != c
  {
    if s != [] {
      if IsBrace(s[0]) {
        assert (Braces(s) + t)[0] == s[0];
      } else {
        assert Braces(s) == Braces(s[1..]);
        BracesAvoid(s[1..], c, t);
      }
    }
  }

  /** The first brace of the text from `pos` is the `c` at `f`: what follows
      `f` carries the remaining braces. */
  lemma FirstBrace(text: string, pos: nat, f: nat, c: char, rest: string)
    requires pos <= f < |text| && text[f] == c && IsBrace(c)
    requires forall i :: pos <= i < f ==> text[i] != c
    requires Braces(text[pos..]) == [c] + rest
    ensures Braces(text[f + 1..]) == rest
  {
    var before := text[pos..f];
    assert text[pos..] == before + text[f..];
    BracesAppend(before, text[f..]);
    assert Braces(text[f..]) == [c] + Braces(text[f + 1..]) by {
      assert text[f..][0] == c && text[f..][1..] == text[f + 1..];
    }
    BracesAvoid(before, c, Braces(text[f..]));
    assert Braces(before) == [];
    assert [c] + Braces(text[f + 1..]) == [c] + rest;
    assert Braces(text[f + 1..]) == ([c] + Braces(text[f + 1..]))[1..];
  }

  /** `strchr` finds a brace from `pos` exactly when it is among the braces
      of the text from `pos`. */
  lemma {:induction false} BraceFound(text: string, pos: nat, c: char)
    requires pos <= |text| && IsBrace(c)
    ensures FindChar(text, pos, c).Some? <==> c in Braces(text[pos..])
    decreases |text| - pos
  {
    if pos < |text| {
      assert Braces(text[pos..]) == BraceOf(text[pos]) + Braces(text[pos + 1..]) by {
        assert text[pos..][0] == text[pos] && text[pos..][1..] == text[pos + 1..];
      }
      BraceFound(text, pos + 1, c);
    }
  }

  /** One step of the walk: the `{` found from `pos` and the `}` found from
      it. */
  lemma RecordStartsStep(text: string, pos: nat, room: nat, b: nat, e: nat)
    requires pos < |text| && room > 0
    requires FindChar(text, pos, '{') == Some(b) && FindChar(text, b, '}') == Some(e)
    ensures RecordStarts(text, pos, room) == [b] + RecordStarts(text, e + 1, room - 1)
  {
  }

  /** The last step of the walk: a `{` with no `}` after it. */
  lemma RecordStartsLast(text: string, pos: nat, room: nat, b: nat)
    requires pos < |text| && room > 0
    requires FindChar(text, pos, '{') == Some(b) && FindChar(text, b, '}').None?
    ensures RecordStarts(text, pos, room) == [b]
  {
  }

  /** One pass of the scan loop, seen from the starts still ahead of it:
      the `{` found is the next start, and the walk either resumes after
      the `}` that follows it or ends there. */
  lemma ScanStep(text: string, pos: nat, room: nat, b: nat, all: seq<nat>, k: nat)
    requires pos < |text| && room > 0 && FindChar(text, pos, '{') == Some(b)
    requires k <= |all| && all[k..] == RecordStarts(text, pos, room)
    ensures k < |all| && all[k] == b
    ensures FindChar(text, b, '}').None? ==> |all| == k + 1
    ensures FindChar(text, b, '}').Some? ==>
              all[k + 1..] == RecordStarts(text, FindChar(text, b, '}').value + 1, room - 1)
  {
    match FindChar(text, b, '}')
    case None =>
      RecordStartsLast(text, pos, room, b);
      assert |all[k..]| == 1;
    case Some(e) =>
      RecordStartsStep(text, pos, room, b, e);
      assert all[k + 1..] == all[k..][1..];
  }

  /** The walk is over at the end of the text and when no room is left. */
  lemma RecordStartsEnded(text: string, pos: nat, room: nat)
    requires pos <= |text|
    ensures pos == |text| || room == 0 ==> RecordStarts(text, pos, room) == []
  {
  }

  /** The walk ends where no `{` remains. */
  lemma RecordStartsEnd(text: string, pos: nat, room: nat)
    requires pos <= |text| && FindChar(text, pos, '{').None?
    ensures RecordStarts(text, pos, room) == []
  {
  }

  /** The first of `n` pairs: its `{`, the `}` after it, and the `n - 1`
      pairs that follow. */
  lemma NextPair(text: string, pos: nat, n: nat) returns (b: nat, e: nat)
    requires pos <= |text| && n > 0 && Braces(text[pos..]) == Pairs(n)
    ensures FindChar(text, pos, '{') == Some(b) && FindChar(text, b, '}') == Some(e)
    ensures e + 1 <= |text| && Braces(text[e + 1..]) == Pairs(n - 1)
  {
    assert Pairs(n) == ['{'] + ("}" + Pairs(n - 1));
    b := LeadingBrace(text, pos, '{', "}" + Pairs(n - 1));
    assert "}" + Pairs(n - 1) == ['}'] + Pairs(n - 1);
    e := LeadingBrace(text, b + 1, '}', Pairs(n - 1));
    assert FindChar(text, b, '}') == Some(e);
  }

  /** `strchr` finds the brace that leads the braces from `pos`; the rest
      of the braces follow it. */
  lemma LeadingBrace(text: string, pos: nat, c: char, rest: string) returns (f: nat)
    requires pos <= |text| && IsBrace(c) && Braces(text[pos..]) == [c] + rest
    ensures FindChar(text, pos, c) == Some(f) && f < |text|
    ensures Braces(text[f + 1..]) == rest
  {
    BraceFound(text, pos, c);
    f := FindChar(text, pos, c).value;
    FindCharFirst(text, pos, c);
    FirstBrace(text, pos, f, c, rest);
  }

  /** A text whose braces are `n` closed, unnested pairs yields one record
      per pair, up to the room left: the first `room` of them. */
  lemma {:induction false} RecordCount(text: string, pos: nat, room: nat, n: nat)
    requires pos <= |text| && Braces(text[pos..]) == Pairs(n)
    ensures |RecordStarts(text, pos, room)| == Min(n, room)
    decreases |text| - pos, 1
  {
    if pos == |text| {
      assert text[pos..] == [];
    } else if room > 0 {
      if n > 0 {
        var b, e := NextPair(text, pos, n);
        CountAfterPair(text, pos, room, n, b, e);
      } else {
        BraceFound(text, pos, '{');
        RecordStartsEnd(text, pos, room);
      }
    }
  }

  lemma {:induction false} CountAfterPair(text: string, pos: nat, room: nat, n: nat, b: nat, e: nat)
    requires pos < |text| && room > 0 && n > 0
    requires FindChar(text, pos, '{') == Some(b) && FindChar(text, b, '}') == Some(e)
    requires e + 1 <= |text| && Braces(text[e + 1..]) == Pairs(n - 1)
    ensures |RecordStarts(text, pos, room)| == Min(n, room)
    decreases |text| - pos, 0
  {
    RecordStartsStep(text, pos, room, b, e);
    RecordCount(text, e + 1, room - 1, n - 1);
  }
}
