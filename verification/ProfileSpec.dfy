/** Network profiles as values: newline-separated lists, their text form and their packed form (dtnetprofile.c). A char
    stands for an octet. */
module ProfileSpec {
  import opened Bytes

  const NUL := '\0'

  /** A `char*` that may be NULL; what it points to ends before its NUL. */
  type CText = Option<string>

  predicate IsText(list: CText) {
    list.Some? ==> NUL !in list.value
  }

  // ----- Lists -----

  /** dtstr_concat_format with a newline as separator. */
  function Added(list: CText, item: string): CText {
    Some(if list.None? then item else list.value + "\n" + item)
  }

  /** What printf makes of a `char*`. */
  function PrintedText(s: CText): string {
    if s.None? then "(null)" else s.value
  }

  /** What snprintf leaves of "component=version" in 128 characters. */
  function VersionEntry(component: CText, version: CText): (entry: string)
    ensures 0 < |entry| < 128
  {
    Capped(PrintedText(component) + "=" + PrintedText(version), 128)
  }

  function AddedAll(items: seq<string>): CText {
    if items == [] then None else Added(AddedAll(items[..|items| - 1]), items[|items| - 1])
  }

  /** The lines of a text, one more than it has newlines, when `current` has been read of the first. */
  function Pieces(text: string, current: string): (ps: seq<string>)
    ensures ps != []
  {
    if text == [] then [current]
    else if text[0] == '\n' then [current] + Pieces(text[1..], [])
    else Pieces(text[1..], current + [text[0]])
  }

  function WithoutEmptyEnd(items: seq<string>): seq<string> {
    if items != [] && items[|items| - 1] == [] then items[..|items| - 1] else items
  }

  /** What next_token_nl finds, called over and over: a text that has come to its end holds no further token. */
  function Tokens(text: string): seq<string> {
    WithoutEmptyEnd(Pieces(text, []))
  }

  function TextOf(list: CText): string {
    if list.None? then [] else list.value
  }

  function TokensOf(list: CText): seq<string> {
    Tokens(TextOf(list))
  }

  lemma {:induction false} PiecesOfSum(a: string, b: string, current: string)
    ensures Pieces(a + "\n" + b, current) == Pieces(a, current) + Pieces(b, [])
    decreases |a|
  {
    var all := a + "\n" + b;
    if a == [] {
      assert all[1..] == b;
    } else {
      assert all[1..] == a[1..] + "\n" + b;
      PiecesOfSum(a[1..], b, if a[0] == '\n' then [] else current + [a[0]]);
    }
  }

  ghost predicate OneLine(s: string) {
    '\n' !in s
  }

  lemma {:induction false} PieceOfOneLine(s: string, current: string)
    requires OneLine(s)
    ensures Pieces(s, current) == [current + s]
    decreases |s|
  {
    if s == [] {
      assert current + s == current;
    } else {
      PieceOfOneLine(s[1..], current + [s[0]]);
      assert current + s == current + [s[0]] + s[1..];
    }
  }

  lemma {:induction false} PiecesAreOneLine(text: string, current: string)
    requires OneLine(current)
    ensures forall i :: 0 <= i < |Pieces(text, current)| ==> OneLine(Pieces(text, current)[i])
    decreases |text|
  {
    if text != [] {
      PiecesAreOneLine(text[1..], if text[0] == '\n' then [] else current + [text[0]]);
    }
  }

  lemma {:induction false} PiecesOfAdded(items: seq<string>)
    requires items != [] && forall i :: 0 <= i < |items| ==> OneLine(items[i])
    ensures Pieces(TextOf(AddedAll(items)), []) == items
    decreases |items|
  {
    var n := |items| - 1;
    PieceOfOneLine(items[n], []);
    assert [] + items[n] == items[n];
    assert items == items[..n] + [items[n]];
    if n == 0 {
      assert AddedAll(items[..n]) == None;
    } else {
      PiecesOfAdded(items[..n]);
      PiecesOfSum(TextOf(AddedAll(items[..n])), items[n], []);
    }
  }

  /** Of one-line items a list shows all, except that an empty last one is lost. */
  lemma AddedAreListed(items: seq<string>)
    requires forall i :: 0 <= i < |items| ==> OneLine(items[i])
    ensures TokensOf(AddedAll(items)) == WithoutEmptyEnd(items)
  {
    if items != [] {
      PiecesOfAdded(items);
    }
  }

  /** A list gives back exactly what was added to it if and only if every item is one line and the last is not empty. */
  lemma ListedAsAdded(items: seq<string>)
    ensures TokensOf(AddedAll(items)) == items <==>
            (forall i :: 0 <= i < |items| ==> OneLine(items[i])) && (items != [] ==> items[|items| - 1] != [])
  {
    if forall i :: 0 <= i < |items| ==> OneLine(items[i]) {
      AddedAreListed(items);
    } else {
      PiecesAreOneLine(TextOf(AddedAll(items)), []);
    }
  }

  /** NULL, or a text whose last line is not empty. */
  predicate EndsInItem(list: CText) {
    list.Some? ==> list.value != [] && list.value[|list.value| - 1] != '\n'
  }

  /** What makes an item come behind those that the list showed: one line, not empty unless the list already ends in an
      empty line, which is then shown. */
  ghost predicate Joins(list: CText, item: string) {
    OneLine(item) && (item != [] <==> EndsInItem(list))
  }

  lemma {:induction false} LastPiece(text: string, current: string)
    ensures var ps := Pieces(text, current);
            ps[|ps| - 1] == [] <==> if text == [] then current == [] else text[|text| - 1] == '\n'
    decreases |text|
  {
    if text != [] {
      LastPiece(text[1..], if text[0] == '\n' then [] else current + [text[0]]);
    }
  }

  /** Adding an item to any list, whatever it was made of: its tokens are those it had and the item if and only if the
      item joins them. */
  lemma AddedAppends(list: CText, item: string)
    ensures TokensOf(Added(list, item)) == TokensOf(list) + [item] <==> Joins(list, item)
  {
    var all := Pieces(TextOf(Added(list, item)), []);
    PiecesAreOneLine(TextOf(Added(list, item)), []);
    if !OneLine(item) {
      var tokens := TokensOf(Added(list, item));
      assert forall i :: 0 <= i < |tokens| ==> OneLine(tokens[i]);
      assert (TokensOf(list) + [item])[|TokensOf(list)|] == item;
    } else {
      PieceOfOneLine(item, []);
      assert [] + item == item;
      if list.Some? {
        PiecesOfSum(list.value, item, []);
        LastPiece(list.value, []);
        AddedLast(Pieces(list.value, []), item);
      } else {
        assert [] + [item] == [item];
      }
    }
  }

  lemma AddedLast(ps: seq<string>, item: string)
    requires ps != []
    ensures WithoutEmptyEnd(ps + [item]) == WithoutEmptyEnd(ps) + [item] <==> (item != [] <==> ps[|ps| - 1] != [])
  {
    var n := |ps|;
    assert (ps + [item])[..n] == ps;
    if item == [] && ps[n - 1] == [] {
      assert ps == ps[..n - 1] + [item];
    }
  }

  /** An entry names component and version, where NULL reads "(null)", in full if and only if they have no more than 126
      characters between them and in the first 127 characters otherwise, and is one line if they are. */
  lemma EntryIsWhole(component: CText, version: CText)
    ensures var c := if component.Some? then component.value else "(null)";
            var v := if version.Some? then version.value else "(null)";
            var entry := VersionEntry(component, version);
            && (entry == c + "=" + v <==> |c| + |v| <= 126)
            && (|c| + |v| > 126 ==> entry == (c + "=" + v)[..127])
            && (OneLine(c) && OneLine(v) ==> OneLine(entry))
    ensures VersionEntry(Some("fw"), Some("1.0")) == "fw=1.0"
    ensures VersionEntry(None, Some("2")) == "(null)=2" && VersionEntry(Some("os"), None) == "os=(null)"
  {
  }

  // ----- Text form -----

  function Joined(tokens: seq<string>): string {
    if tokens == [] then []
    else if |tokens| == 1 then tokens[0]
    else Joined(tokens[..|tokens| - 1]) + ", " + tokens[|tokens| - 1]
  }

  function Line(title: string, list: CText): string {
    if TextOf(list) == [] then [] else "    " + title + ": " + Joined(TokensOf(list)) + "\n"
  }

  const LABELS := ["names", "versions", "urls", "roles", "subscriptions", "publications", "states"]

  function Label(i: nat): string
    requires i < 7
  {
    LABELS[i]
  }

  /** The lines of the first n lists. */
  function Lines(lists: seq<CText>, n: nat): string
    requires n <= |lists| == 7
  {
    if n == 0 then [] else Lines(lists, n - 1) + Line(Label(n - 1), lists[n - 1])
  }

  /** What dtnetprofile_to_string has to say, with its final newline. */
  function Rendering(lists: seq<CText>): string
    requires |lists| == 7
  {
    if Lines(lists, 7) == [] then "(empty)\n" else Lines(lists, 7)
  }

  function Capped(text: string, size: nat): (s: string)
    requires size > 0
  {
    if |text| < size then text else text[..size - 1]
  }

  function Shown(lists: seq<CText>, size: nat): string
    requires |lists| == 7 && size > 0
  {
    Trimmed(Capped(Rendering(lists), size))
  }

  function Trimmed(text: string): string {
    if text != [] && text[|text| - 1] == '\n' then text[..|text| - 1] else text
  }

  lemma TextOfTwo(a: string, b: string)
    ensures TextOf(AddedAll([a, b])) == a + "\n" + b
  {
    assert [a, b][..1] == [a] && [a][..0] == [];
    assert AddedAll([a]) == Added(AddedAll([]), a) == Some(a);
  }

  lemma JoinedTwo(a: string, b: string)
    ensures Joined([a, b]) == a + ", " + b
  {
    assert [a, b][..1] == [a];
  }

  /** A text on one line: a comma and a blank for each newline. */
  function Spread(text: string): string {
    if text == [] then [] else (if text[0] == '\n' then ", " else [text[0]]) + Spread(text[1..])
  }

  lemma {:induction false} JoinedFront(first: string, rest: seq<string>)
    requires rest != []
    ensures Joined([first] + rest) == first + ", " + Joined(rest)
    decreases |rest|
  {
    var n := |rest| - 1;
    assert ([first] + rest)[..n + 1] == [first] + rest[..n];
    if n > 0 {
      JoinedFront(first, rest[..n]);
    }
  }

  lemma {:induction false} JoinedPieces(text: string, current: string)
    ensures Joined(Pieces(text, current)) == current + Spread(text)
    decreases |text|
  {
    if text == [] {
      assert current + [] == current;
    } else if text[0] == '\n' {
      JoinedPieces(text[1..], []);
      JoinedFront(current, Pieces(text[1..], []));
      assert current + ", " + ([] + Spread(text[1..])) == current + (", " + Spread(text[1..]));
    } else {
      JoinedPieces(text[1..], current + [text[0]]);
      assert current + [text[0]] + Spread(text[1..]) == current + ([text[0]] + Spread(text[1..]));
    }
  }

  /** The joined tokens of any text are the text itself with its newlines spread, but for a final one. */
  lemma JoinedTokens(text: string)
    ensures Joined(Tokens(text)) == Spread(Trimmed(text))
  {
    var shown := Trimmed(text);
    LastPiece(text, []);
    JoinedPieces(shown, []);
    assert [] + Spread(shown) == Spread(shown);
    if shown != text {
      assert text == shown + "\n" + [];
      PiecesOfSum(shown, [], []);
      assert Pieces(shown, []) + [[]] == Pieces(text, []);
      assert WithoutEmptyEnd(Pieces(text, [])) == Pieces(shown, []);
    }
  }

  /** A list prints on one line if and only if it has any text. */
  lemma LineShowsText(title: string, list: CText)
    ensures Line(title, list) ==
            if list.None? || list.value == [] then [] else "    " + title + ": " + Spread(Trimmed(list.value)) + "\n"
  {
    JoinedTokens(TextOf(list));
  }

  /** Two added items as they are printed. */
  lemma LineOfTwo(title: string, a: string, b: string)
    requires OneLine(a) && OneLine(b) && b != []
    ensures Line(title, AddedAll([a, b])) == "    " + title + ": " + (a + ", " + b) + "\n"
  {
    AddedAreListed([a, b]);
    TextOfTwo(a, b);
    JoinedTwo(a, b);
  }

  lemma JoinedEnds(tokens: seq<string>)
    requires forall i :: 0 <= i < |tokens| ==> OneLine(tokens[i])
    ensures Joined(tokens) == [] || Joined(tokens)[|Joined(tokens)| - 1] != '\n'
  {
  }

  /** A line ends in one newline. */
  ghost predicate EndsInOneNewline(text: string) {
    |text| >= 2 && text[|text| - 1] == '\n' && text[|text| - 2] != '\n'
  }

  lemma LineEnds(title: string, list: CText)
    ensures Line(title, list) == [] || EndsInOneNewline(Line(title, list))
  {
    PiecesAreOneLine(TextOf(list), []);
    JoinedEnds(TokensOf(list));
    var front := "    " + title + ": " + Joined(TokensOf(list));
    assert front[|front| - 1] != '\n';
  }

  lemma EndsAfter(front: string, line: string)
    requires front == [] || EndsInOneNewline(front)
    requires line == [] || EndsInOneNewline(line)
    ensures front + line == [] || EndsInOneNewline(front + line)
  {
    if line == [] {
      assert front + line == front;
    }
  }

  lemma {:induction false} LinesEnd(lists: seq<CText>, n: nat)
    requires n <= |lists| == 7
    ensures Lines(lists, n) == [] || EndsInOneNewline(Lines(lists, n))
  {
    if n > 0 {
      LinesEnd(lists, n - 1);
      LineEnds(Label(n - 1), lists[n - 1]);
      EndsAfter(Lines(lists, n - 1), Line(Label(n - 1), lists[n - 1]));
    }
  }

  lemma CutWhole(text: string, size: nat)
    requires EndsInOneNewline(text) && size > 0
    ensures var shown, whole := Trimmed(Capped(text, size)), Trimmed(text);
            && shown <= whole && |whole| == |text| - 1 && |shown| < size
            && (|shown| >= |whole| || |shown| >= size - 2)
            && (shown == whole <==> |whole| < size)
  {
  }

  /** The whole text is shown if and only if the buffer has room for it and for its NUL; in any case the buffer shows its
      beginning, and of that at most one character less than fits. */
  lemma ShownWhole(lists: seq<CText>, size: nat)
    requires |lists| == 7 && size > 0
    ensures var shown, whole := Shown(lists, size), Trimmed(Rendering(lists));
            && shown <= whole && |whole| == |Rendering(lists)| - 1 && |shown| < size
            && (|shown| >= |whole| || |shown| >= size - 2)
            && (shown == whole <==> |whole| < size)
  {
    LinesEnd(lists, 7);
    CutWhole(Rendering(lists), size);
  }

  lemma {:induction false} PiecesAreText(text: string, current: string)
    requires NUL !in text && NUL !in current
    ensures forall i :: 0 <= i < |Pieces(text, current)| ==> NUL !in Pieces(text, current)[i]
    decreases |text|
  {
    if text != [] {
      PiecesAreText(text[1..], if text[0] == '\n' then [] else current + [text[0]]);
    }
  }

  lemma {:induction false} JoinedIsText(tokens: seq<string>)
    requires forall i :: 0 <= i < |tokens| ==> NUL !in tokens[i]
    ensures NUL !in Joined(tokens)
    decreases |tokens|
  {
    if |tokens| > 1 {
      JoinedIsText(tokens[..|tokens| - 1]);
    }
  }

  lemma LabelIsText(i: nat)
    requires i < 7
    ensures NUL !in Label(i)
  {
  }

  lemma LineIsText(title: string, list: CText)
    requires NUL !in title && IsText(list)
    ensures NUL !in Line(title, list)
  {
    PiecesAreText(TextOf(list), []);
    JoinedIsText(TokensOf(list));
  }

  lemma {:induction false} LinesAreText(lists: seq<CText>, n: nat)
    requires n <= |lists| == 7 && forall i :: 0 <= i < 7 ==> IsText(lists[i])
    ensures NUL !in Lines(lists, n)
  {
    if n > 0 {
      LinesAreText(lists, n - 1);
      LabelIsText(n - 1);
      LineIsText(Label(n - 1), lists[n - 1]);
    }
  }

  lemma CutIsText(text: string, size: nat)
    requires NUL !in text && size > 0
    ensures NUL !in Trimmed(Capped(text, size))
  {
  }

  /** Nothing that is shown is taken for the end of the string. */
  lemma ShownIsText(lists: seq<CText>, size: nat)
    requires |lists| == 7 && size > 0 && forall i :: 0 <= i < 7 ==> IsText(lists[i])
    ensures NUL !in Shown(lists, size)
  {
    LinesAreText(lists, 7);
    CutIsText(Rendering(lists), size);
  }

  /** There is nothing to say just of lists without text. */
  lemma NothingToSay(lists: seq<CText>)
    requires |lists| == 7
    ensures Rendering(lists) == "(empty)\n" <==> forall i :: 0 <= i < 7 ==> TextOf(lists[i]) == []
  {
    LinesStart(lists, 7);
  }

  lemma {:induction false} LinesStart(lists: seq<CText>, n: nat)
    requires n <= |lists| == 7
    ensures Lines(lists, n) == [] <==> forall i :: 0 <= i < n ==> TextOf(lists[i]) == []
    ensures Lines(lists, n) != [] ==> Lines(lists, n)[0] == ' '
  {
    if n > 0 {
      LinesStart(lists, n - 1);
      LineStart(Label(n - 1), lists[n - 1]);
      StartOfSum(Lines(lists, n - 1), Line(Label(n - 1), lists[n - 1]));
    }
  }

  lemma LineStart(title: string, list: CText)
    ensures Line(title, list) == [] <==> TextOf(list) == []
    ensures Line(title, list) != [] ==> Line(title, list)[0] == ' '
  {
    assert ("    " + title + ": " + Joined(TokensOf(list)) + "\n")[0] == ' ';
  }

  lemma StartOfSum(front: string, line: string)
    requires (front != [] ==> front[0] == ' ') && (line != [] ==> line[0] == ' ')
    ensures front + line == [] <==> front == [] && line == []
    ensures front + line != [] ==> (front + line)[0] == ' '
  {
  }

  // ----- Packed form -----

  /** The texts of the lists; a NULL list counts as empty. */
  function Texts(lists: seq<CText>): (ts: seq<string>)
    ensures |ts| == |lists| && forall i :: 0 <= i < |lists| ==> ts[i] == TextOf(lists[i])
  {
    seq(|lists|, i requires 0 <= i < |lists| => TextOf(lists[i]))
  }

  /** The first n texts. */
  function Packed(texts: seq<string>, n: nat): string
    requires n <= |texts|
  {
    if n == 0 then [] else Packed(texts, n - 1) + (texts[n - 1] + [NUL])
  }

  /** str_bytes_or_one: the bytes that a list takes with its NUL. */
  function BytesOrOne(list: CText): nat {
    if list.None? then 1 else |list.value| + 1
  }

  /** What dtnetprofile_pack_length adds up. */
  function PackLength(lists: seq<CText>, n: nat): nat
    requires n <= |lists|
  {
    if n == 0 then 0 else PackLength(lists, n - 1) + BytesOrOne(lists[n - 1])
  }

  lemma {:induction false} PackedLength(lists: seq<CText>, n: nat)
    requires n <= |lists|
    ensures |Packed(Texts(lists), n)| == PackLength(lists, n)
  {
    if n > 0 {
      PackedLength(lists, n - 1);
    }
  }

  /** The first lists replaced by these texts. */
  function Replaced(lists: seq<CText>, texts: seq<string>): (r: seq<CText>)
    requires |texts| <= |lists|
    ensures |r| == |lists|
    ensures forall i :: 0 <= i < |lists| ==> r[i] == if i < |texts| then Some(texts[i]) else lists[i]
  {
    seq(|lists|, i requires 0 <= i < |lists| => if i < |texts| then Some(texts[i]) else lists[i])
  }

  lemma ReplacedNext(lists: seq<CText>, texts: seq<string>, text: string)
    requires |texts| < |lists|
    ensures Replaced(lists, texts + [text]) == Replaced(lists, texts)[|texts| := Some(text)]
  {
  }

  /** dtpackx: the string at p, if its NUL lies before the end of the input. */
  function ReadString(input: string, p: nat): (t: Option<string>)
    ensures t.Some? ==> p + |t.value| < |input| && t.value == input[p..p + |t.value|] && NUL !in t.value
    ensures t.Some? ==> input[p + |t.value|] == NUL
    decreases |input| - p
  {
    if p >= |input| then None
    else if input[p] == NUL then Some([])
    else
      var rest := ReadString(input, p + 1);
      if rest.None? then None else Some([input[p]] + rest.value)
  }

  datatype Found = Found(texts: seq<string>, end: nat)

  /** Up to n strings from p on, and where they end. */
  function Strings(input: string, p: nat, n: nat): (r: Found)
    ensures |r.texts| <= n && p <= r.end && (r.texts != [] ==> r.end <= |input|)
  {
    if n == 0 then Found([], p)
    else
      var front := Strings(input, p, n - 1);
      if |front.texts| < n - 1 then front else WithNext(front, ReadString(input, front.end))
  }

  function WithNext(front: Found, text: Option<string>): Found {
    if text.None? then front else Found(front.texts + [text.value], front.end + |text.value| + 1)
  }

  lemma {:induction false} NoMoreStrings(input: string, p: nat, n: nat, m: nat)
    requires n <= m && |Strings(input, p, n).texts| < n
    ensures Strings(input, p, m) == Strings(input, p, n)
  {
    if n < m {
      NoMoreStrings(input, p, n, m - 1);
    }
  }

  ghost predicate LiesAt(input: string, p: nat, chunk: string) {
    p + |chunk| <= |input| && input[p..p + |chunk|] == chunk
  }

  lemma {:induction false} ReadStringBack(input: string, p: nat, text: string)
    requires NUL !in text && LiesAt(input, p, text + [NUL])
    ensures ReadString(input, p) == Some(text)
    decreases |text|
  {
    var slice := input[p..p + |text| + 1];
    assert input[p] == slice[0];
    if text != [] {
      assert input[p + 1..p + 1 + |text[1..] + [NUL]|] == slice[1..] == text[1..] + [NUL];
      ReadStringBack(input, p + 1, text[1..]);
      assert text == [text[0]] + text[1..];
    }
  }

  lemma SplitPacked(texts: seq<string>, n: nat, input: string, p: nat)
    requires 0 < n <= |texts| && LiesAt(input, p, Packed(texts, n))
    ensures LiesAt(input, p, Packed(texts, n - 1))
    ensures LiesAt(input, p + |Packed(texts, n - 1)|, texts[n - 1] + [NUL])
    ensures |Packed(texts, n)| == |Packed(texts, n - 1)| + |texts[n - 1]| + 1
  {
    SplitSlice(input, p, p + |Packed(texts, n)|, Packed(texts, n - 1), texts[n - 1] + [NUL]);
  }

  lemma NextString(input: string, p: nat, n: nat, front: Found, text: string)
    requires 0 < n == |front.texts| + 1 && Strings(input, p, n - 1) == front
    requires NUL !in text && LiesAt(input, front.end, text + [NUL])
    ensures Strings(input, p, n) == WithNext(front, Some(text))
  {
    ReadStringBack(input, front.end, text);
  }

  lemma NextText(texts: seq<string>, n: nat, input: string, p: nat, end: nat)
    requires 0 < n <= |texts| && NUL !in texts[n - 1] && LiesAt(input, end, texts[n - 1] + [NUL])
    requires Strings(input, p, n - 1) == Found(texts[..n - 1], end)
    ensures Strings(input, p, n) == Found(texts[..n], end + |texts[n - 1]| + 1)
  {
    NextString(input, p, n, Found(texts[..n - 1], end), texts[n - 1]);
    assert texts[..n] == texts[..n - 1] + [texts[n - 1]];
  }

  /** Round trip: packed texts, anywhere in a buffer, come back as they were, from exactly their bytes. */
  lemma {:induction false} RoundTrip(texts: seq<string>, n: nat, input: string, p: nat)
    requires n <= |texts| && forall i :: 0 <= i < |texts| ==> NUL !in texts[i]
    requires LiesAt(input, p, Packed(texts, n))
    ensures Strings(input, p, n) == Found(texts[..n], p + |Packed(texts, n)|)
  {
    if n > 0 {
      SplitPacked(texts, n, input, p);
      RoundTrip(texts, n - 1, input, p);
      NextText(texts, n, input, p, p + |Packed(texts, n - 1)|);
    }
  }

  /** Of texts that are cut off, those are found that are there with their NUL. */
  lemma CutShort(texts: seq<string>, n: nat, input: string, p: nat, m: nat)
    requires n <= |texts| && n < m && forall i :: 0 <= i < |texts| ==> NUL !in texts[i]
    requires LiesAt(input, p, Packed(texts, n)) && NUL !in input[p + |Packed(texts, n)|..]
    ensures Strings(input, p, m) == Found(texts[..n], p + |Packed(texts, n)|)
  {
    RoundTrip(texts, n, input, p);
    var end := p + |Packed(texts, n)|;
    forall i | end <= i < |input| ensures input[i] != NUL {
      assert input[i] == input[end..][i - end];
    }
    NoMoreStrings(input, p, n + 1, m);
  }

  /** A profile that has been sent reads the same. */
  lemma {:induction false} SameLines(a: seq<CText>, b: seq<CText>, n: nat)
    requires n <= |a| == |b| == 7 && forall i :: 0 <= i < 7 ==> TextOf(a[i]) == TextOf(b[i])
    ensures Lines(a, n) == Lines(b, n)
  {
    if n > 0 {
      SameLines(a, b, n - 1);
    }
  }

  /** Packed and unpacked into any profile, it says the same. */
  lemma SentSaysTheSame(lists: seq<CText>, other: seq<CText>, input: string, p: nat)
    requires |lists| == |other| == 7 && forall i :: 0 <= i < 7 ==> IsText(lists[i])
    requires LiesAt(input, p, Packed(Texts(lists), 7))
    ensures var found := Strings(input, p, 7);
            && |found.texts| == 7 && found.end == p + PackLength(lists, 7)
            && Rendering(Replaced(other, found.texts)) == Rendering(lists)
  {
    var texts := Texts(lists);
    forall i | 0 <= i < 7 ensures NUL !in texts[i] {
      assert IsText(lists[i]);
    }
    RoundTrip(texts, 7, input, p);
    assert texts[..7] == texts;
    PackedLength(lists, 7);
    SameLines(Replaced(other, texts), lists, 7);
  }
}
