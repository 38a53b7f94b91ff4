/** The network profile object (dtnetprofile.c): seven lists, a bounded printer and a packer. */
module NetProfile {
  import opened Bytes
  import opened ProfileSpec

  // ----- Tokens -----

  /** From this position on, these tokens are left. */
  ghost predicate Left(text: string, p: nat, tokens: seq<string>) {
    p <= |text| && Tokens(text[p..]) == tokens
  }

  /** next_token_nl: the token at the cursor, its length, and where to go on. */
  method NextToken(text: string, p: nat, ghost tokens: seq<string>) returns (found: bool, len: nat, next: nat)
    requires Left(text, p, tokens)
    ensures found <==> tokens != []
    ensures found <==> p < next
    ensures found ==> p + len <= next <= |text| && text[p..p + len] == tokens[0] && Left(text, next, tokens[1..])
  {
    found, len, next := false, 0, p;
    if p == |text| {
      return;
    }
    var q := p;
    assert text[p..q] == [];
    while q < |text| && text[q] != '\n'
      invariant p <= q <= |text|
      invariant Pieces(text[p..], []) == Pieces(text[q..], text[p..q])
    {
      assert text[p..q + 1] == text[p..q] + [text[q]];
      q := q + 1;
    }
    found, len := true, q - p;
    next := if q < |text| then q + 1 else q;
  }

  /** dtnetprofile_get: the index-th token, and NULL beyond the last. */
  method Get(list: CText, index: int) returns (value: CText)
    ensures value == if 0 <= index < |TokensOf(list)| then Some(TokensOf(list)[index]) else None
  {
    value := None;
    if list.None? || index < 0 {
      return;
    }
    value := GetFrom(list.value, index, Tokens(list.value));
  }

  method GetFrom(text: string, index: nat, ghost tokens: seq<string>) returns (value: CText)
    requires Left(text, 0, tokens)
    ensures value == if index < |tokens| then Some(tokens[index]) else None
  {
    var p: nat, i: nat := 0, 0;
    var found, len, next := NextToken(text, p, tokens);
    while found
      invariant i <= index && i <= |tokens| && Left(text, p, tokens[i..])
      invariant found <==> i < |tokens|
      invariant found ==> p < next && p + len <= next <= |text|
                          && text[p..p + len] == tokens[i] && Left(text, next, tokens[i + 1..])
      decreases |tokens| - i
    {
      if i == index {
        return Some(text[p..p + len]);
      }
      i, p := i + 1, next;
      found, len, next := NextToken(text, p, tokens[i..]);
    }
    value := None;
  }

  // ----- Bounded printing -----

  /** The buffer shows as much of the text as fits, and a NUL. */
  ghost predicate Holds(out: seq<char>, size: nat, used: nat, text: string) {
    && 0 < size <= |out|
    && used == |Capped(text, size)| && out[..used] == Capped(text, size) && out[used] == NUL
  }

  /** buf_vappend, for what the format makes of its arguments. */
  method BufAppend(out: array<char>, size: nat, used: nat, chunk: string, ghost text: string) returns (now: nat)
    requires Holds(out[..], size, used, text)
    modifies out
    ensures Holds(out[..], size, now, text + chunk) && out[size..] == old(out[size..])
  {
    var space, n := size - used, |chunk|;
    var fits := if n < space then n else space - 1;
    forall i | 0 <= i < fits {
      out[used + i] := chunk[i];
    }
    out[used + fits] := NUL;
    now := if n >= space then size - 1 else used + n;
    CappedSum(text, chunk, size);
    assert out[..now] == Capped(text, size) + chunk[..fits];
  }

  lemma CappedSum(text: string, chunk: string, size: nat)
    requires size > 0
    ensures var space := size - |Capped(text, size)|;
            Capped(text + chunk, size) == Capped(text, size) + if |chunk| < space then chunk else chunk[..space - 1]
  {
  }

  method AppendListLine(out: array<char>, size: nat, used: nat, title: string, list: CText, ghost text: string)
    returns (now: nat)
    requires Holds(out[..], size, used, text)
    modifies out
    ensures Holds(out[..], size, now, text + Line(title, list)) && out[size..] == old(out[size..])
  {
    now := used;
    if list.None? || list.value == [] {
      assert text + [] == text;
      return;
    }
    ghost var head := "    " + title + ": ";
    now := BufAppend(out, size, now, "    " + title + ": ", text);
    assert list.value[0..] == list.value;
    now := AppendTokens(out, size, now, list.value, TokensOf(list), text + head);
    now := BufAppend(out, size, now, "\n", text + head + Joined(TokensOf(list)));
    assert text + head + Joined(TokensOf(list)) + "\n" == text + Line(title, list);
  }

  method AppendTokens(out: array<char>, size: nat, used: nat, list: string, ghost tokens: seq<string>, ghost text: string)
    returns (now: nat)
    requires Holds(out[..], size, used, text) && Left(list, 0, tokens)
    modifies out
    ensures Holds(out[..], size, now, text + Joined(tokens)) && out[size..] == old(out[size..])
  {
    var p: nat, first := 0, true;
    ghost var i: nat := 0;
    now := used;
    assert text + [] == text;
    var found, len, next := NextToken(list, p, tokens);
    while found
      invariant i <= |tokens| && (first <==> i == 0) && Left(list, p, tokens[i..])
      invariant found <==> i < |tokens|
      invariant found ==> p < next && p + len <= next <= |list|
                          && list[p..p + len] == tokens[i] && Left(list, next, tokens[i + 1..])
      invariant Holds(out[..], size, now, text + Joined(tokens[..i])) && out[size..] == old(out[size..])
      decreases |tokens| - i
    {
      now := AppendToken(out, size, now, list[p..p + len], first, text, tokens[..i]);
      assert tokens[..i + 1] == tokens[..i] + [tokens[i]];
      i := i + 1;
      p, first := next, false;
      found, len, next := NextToken(list, p, tokens[i..]);
    }
    assert tokens[..i] == tokens;
  }

  method AppendToken(out: array<char>, size: nat, used: nat, token: string, first: bool,
                     ghost text: string, ghost front: seq<string>) returns (now: nat)
    requires Holds(out[..], size, used, text + Joined(front)) && (first <==> front == [])
    modifies out
    ensures Holds(out[..], size, now, text + Joined(front + [token])) && out[size..] == old(out[size..])
  {
    ghost var shown := text + Joined(front);
    now := used;
    if !first {
      now := BufAppend(out, size, now, ", ", shown);
      shown := shown + ", ";
    }
    now := BufAppend(out, size, now, token, shown);
    assert (front + [token])[..|front|] == front;
    assert shown + token == text + Joined(front + [token]);
  }

  // ----- Packing -----

  /** dtpackx_pack_string: the string and its NUL, if they fit. */
  method PackString(text: string, output: array<char>, p: nat, length: nat) returns (n: int)
    requires length <= output.Length
    modifies output
    ensures n == if p + |text| + 1 <= length then |text| + 1 else -1
    ensures if n >= 0 then Wrote(output[..], old(output[..]), p, text + [NUL]) else output[..] == old(output[..])
  {
    if p + |text| + 1 > length {
      return -1;
    }
    forall i | 0 <= i < |text| {
      output[p + i] := text[i];
    }
    output[p + |text|] := NUL;
    n := |text| + 1;
  }

  /** The first k texts have been written, up to p. */
  ghost predicate PackedSoFar(now: seq<char>, was: seq<char>, offset: nat, length: nat, texts: seq<string>, k: nat,
                              p: nat)
    requires k <= |texts|
  {
    && p == offset + |Packed(texts, k)|
    && if k == 0 then now == was else p <= length && Wrote(now, was, offset, Packed(texts, k))
  }

  method PackNext(text: string, output: array<char>, p: nat, length: nat,
                  ghost was: seq<char>, ghost offset: nat, ghost texts: seq<string>, ghost k: nat) returns (n: int)
    requires length <= output.Length && k < |texts| && texts[k] == text
    requires PackedSoFar(output[..], was, offset, length, texts, k, p)
    modifies output
    ensures if n >= 0 then PackedSoFar(output[..], was, offset, length, texts, k + 1, p + n)
            else offset + |Packed(texts, |texts|)| > length && Spared(output[..], was, offset, length)
  {
    ghost var mid := output[..];
    n := PackString(text, output, p, length);
    if n < 0 {
      PackedGrows(texts, k + 1, |texts|);
      if k > 0 {
        OutsideBoth(output[..], mid, was, offset, p, length, length);
      }
    } else if k > 0 {
      WroteBoth(output[..], mid, was, offset, Packed(texts, k), text + [NUL]);
    } else {
      assert Packed(texts, 1) == [] + (text + [NUL]) == text + [NUL];
    }
  }

  lemma {:induction false} PackedGrows(texts: seq<string>, a: nat, b: nat)
    requires a <= b <= |texts|
    ensures |Packed(texts, a)| <= |Packed(texts, b)|
  {
    if a < b {
      PackedGrows(texts, a, b - 1);
    }
  }

  // ----- Unpacking -----

  /** dtpackx_unpack_string. */
  method UnpackString(input: string, p: nat) returns (n: int, text: string)
    ensures ReadString(input, p) == if n >= 0 then Some(text) else None
    ensures n >= 0 ==> n == |text| + 1 && p + n <= |input|
  {
    var t := ReadString(input, p);
    n, text := if t.Some? then |t.value| + 1 else -1, if t.Some? then t.value else [];
  }

  method UnpackNext(input: string, p: nat, ghost offset: nat, ghost k: nat, ghost front: seq<string>)
    returns (n: int, text: string)
    requires k < 7 && |front| == k && Strings(input, offset, k) == Found(front, p)
    ensures n >= 0 ==> p + n <= |input| && Strings(input, offset, k + 1) == Found(front + [text], p + n)
    ensures n < 0 ==> Strings(input, offset, 7) == Found(front, p)
  {
    n, text := UnpackString(input, p);
    if n < 0 {
      NoMoreStrings(input, offset, k + 1, 7);
    }
  }

  // ----- The profile -----

  /** The string is in the buffer, with its NUL. */
  ghost predicate Shows(out: seq<char>, text: string) {
    |text| < |out| && out[..|text|] == text && out[|text|] == NUL
  }

  /** After the seven lines; a buffer of one character holds nothing of them either. */
  lemma EmptyIsHeld(lists: seq<CText>, size: nat, out: seq<char>, used: nat, now: nat)
    requires |lists| == 7 && size > 0 && used == |Capped(Lines(lists, 7), size)| == 0
    requires Holds(out, size, now, Lines(lists, 7) + "(empty)\n")
    ensures Holds(out, size, now, Rendering(lists))
  {
    if Lines(lists, 7) != [] {
      assert size == 1;
    } else {
      assert [] + "(empty)\n" == "(empty)\n";
    }
  }

  lemma NotEmptyIsHeld(lists: seq<CText>, size: nat, out: seq<char>, used: nat)
    requires |lists| == 7 && used > 0 && Holds(out, size, used, Lines(lists, 7))
    ensures Holds(out, size, used, Rendering(lists))
  {
  }

  /** Without a final newline. */
  method TrimFinal(out: array<char>, size: nat, used: nat, ghost text: string)
    requires Holds(out[..], size, used, text)
    modifies out
    ensures Shows(out[..], Trimmed(Capped(text, size))) && out[size..] == old(out[size..])
  {
    ghost var before := out[..];
    assert used > 0 ==> before[used - 1] == before[..used][used - 1];
    if used > 0 && out[used - 1] == '\n' {
      out[used - 1] := NUL;
      assert out[..used - 1] == before[..used][..used - 1];
    }
  }

  lemma SevenParts(sums: seq<string>, parts: seq<string>)
    requires |sums| == 8 && |parts| == 7 && sums[0] == []
    requires forall i :: 0 <= i < 7 ==> sums[i + 1] == sums[i] + parts[i]
    ensures sums[7] == parts[0] + parts[1] + parts[2] + parts[3] + parts[4] + parts[5] + parts[6]
  {
    assert sums[1] == sums[0] + parts[0] == parts[0];
    assert sums[2] == sums[1] + parts[1] && sums[3] == sums[2] + parts[2] && sums[4] == sums[3] + parts[3];
    assert sums[5] == sums[4] + parts[4] && sums[6] == sums[5] + parts[5] && sums[7] == sums[6] + parts[6];
  }

  lemma NextLine(lists: seq<CText>, n: nat)
    requires n < |lists| == 7
    ensures Lines(lists, n + 1) == Lines(lists, n) + Line(LABELS[n], lists[n])
  {
  }

  lemma NextPacked(texts: seq<string>, n: nat)
    requires n < |texts|
    ensures Packed(texts, n + 1) == Packed(texts, n) + (texts[n] + [NUL])
  {
  }

  /** The lines of so many lists, for each number of lists, and the line of each. */
  lemma PartsOfLines(lists: seq<CText>) returns (sums: seq<string>, parts: seq<string>)
    requires |lists| == 7
    ensures |sums| == 8 && |parts| == 7 && sums[0] == [] && sums[7] == Lines(lists, 7)
    ensures forall i :: 0 <= i < 7 ==> sums[i + 1] == sums[i] + parts[i] && parts[i] == Line(LABELS[i], lists[i])
  {
    sums := seq(8, i requires 0 <= i < 8 => Lines(lists, i));
    parts := seq(7, i requires 0 <= i < 7 => Line(LABELS[i], lists[i]));
    forall i | 0 <= i < 7 ensures sums[i + 1] == sums[i] + parts[i] {
      NextLine(lists, i);
    }
  }

  lemma PartsOfPacked(texts: seq<string>) returns (sums: seq<string>, parts: seq<string>)
    requires |texts| == 7
    ensures |sums| == 8 && |parts| == 7 && sums[0] == [] && sums[7] == Packed(texts, 7)
    ensures forall i :: 0 <= i < 7 ==> sums[i + 1] == sums[i] + parts[i] && parts[i] == texts[i] + [NUL]
  {
    sums := seq(8, i requires 0 <= i < 8 => Packed(texts, i));
    parts := seq(7, i requires 0 <= i < 7 => texts[i] + [NUL]);
    forall i | 0 <= i < 7 ensures sums[i + 1] == sums[i] + parts[i] {
      NextPacked(texts, i);
    }
  }

  class Profile {
    var nameList: CText
    var versionList: CText
    var urlList: CText
    var roleList: CText
    var subscriptionList: CText
    var publicationList: CText
    var stateList: CText

    /** A zeroed struct. */
    constructor ()
      ensures forall i :: 0 <= i < 7 ==> Lists()[i] == None
    {
      nameList, versionList, urlList, roleList := None, None, None, None;
      subscriptionList, publicationList, stateList := None, None, None;
    }

    function Lists(): (ls: seq<CText>)
      reads this
      ensures |ls| == 7
    {
      [nameList, versionList, urlList, roleList, subscriptionList, publicationList, stateList]
    }

    /** Which list says what: the seven lines in their order, each with its own label, and the seven texts in the same
        order, each with its NUL. */
    lemma FieldsInOrder()
      ensures Lines(Lists(), 7) ==
              Line("names", nameList) + Line("versions", versionList) + Line("urls", urlList) + Line("roles", roleList)
              + Line("subscriptions", subscriptionList) + Line("publications", publicationList)
              + Line("states", stateList)
      ensures Packed(Texts(Lists()), 7) ==
              TextOf(nameList) + [NUL] + (TextOf(versionList) + [NUL]) + (TextOf(urlList) + [NUL])
              + (TextOf(roleList) + [NUL]) + (TextOf(subscriptionList) + [NUL]) + (TextOf(publicationList) + [NUL])
              + (TextOf(stateList) + [NUL])
    {
      var sums, lines := PartsOfLines(Lists());
      SevenParts(sums, lines);
      var starts, texts := PartsOfPacked(Texts(Lists()));
      SevenParts(starts, texts);
    }

    method AddName(name: string)
      modifies `nameList
      ensures nameList == Added(old(nameList), name)
      ensures TokensOf(nameList) == TokensOf(old(nameList)) + [name] <==> Joins(old(nameList), name)
    {
      AddedAppends(nameList, name);
      nameList := Added(nameList, name);
    }

    /** The entry is cut to what a local buffer of 128 characters holds. */
    method AddVersion(component: CText, version: CText)
      modifies `versionList
      ensures versionList == Added(old(versionList), VersionEntry(component, version))
      ensures var entry := VersionEntry(component, version);
              TokensOf(versionList) == TokensOf(old(versionList)) + [entry] <==>
              OneLine(entry) && EndsInItem(old(versionList))
      ensures OneLine(PrintedText(component)) && OneLine(PrintedText(version)) ==>
                OneLine(VersionEntry(component, version))
    {
      EntryIsWhole(component, version);
      AddedAppends(versionList, VersionEntry(component, version));
      versionList := Added(versionList, VersionEntry(component, version));
    }

    method AddUrl(url: string)
      modifies `urlList
      ensures urlList == Added(old(urlList), url)
      ensures TokensOf(urlList) == TokensOf(old(urlList)) + [url] <==> Joins(old(urlList), url)
    {
      AddedAppends(urlList, url);
      urlList := Added(urlList, url);
    }

    method AddRole(role: string)
      modifies `roleList
      ensures roleList == Added(old(roleList), role)
      ensures TokensOf(roleList) == TokensOf(old(roleList)) + [role] <==> Joins(old(roleList), role)
    {
      AddedAppends(roleList, role);
      roleList := Added(roleList, role);
    }

    method AddSubscription(subscription: string)
      modifies `subscriptionList
      ensures subscriptionList == Added(old(subscriptionList), subscription)
      ensures TokensOf(subscriptionList) == TokensOf(old(subscriptionList)) + [subscription] <==>
              Joins(old(subscriptionList), subscription)
    {
      AddedAppends(subscriptionList, subscription);
      subscriptionList := Added(subscriptionList, subscription);
    }

    method AddPublication(publication: string)
      modifies `publicationList
      ensures publicationList == Added(old(publicationList), publication)
      ensures TokensOf(publicationList) == TokensOf(old(publicationList)) + [publication] <==>
              Joins(old(publicationList), publication)
    {
      AddedAppends(publicationList, publication);
      publicationList := Added(publicationList, publication);
    }

    method AddState(state: string)
      modifies `stateList
      ensures stateList == Added(old(stateList), state)
      ensures TokensOf(stateList) == TokensOf(old(stateList)) + [state] <==> Joins(old(stateList), state)
    {
      AddedAppends(stateList, state);
      stateList := Added(stateList, state);
    }

    method AppendLines(out: array<char>, size: nat) returns (used: nat)
      requires 0 < size <= out.Length && out[0] == NUL
      modifies out
      ensures Holds(out[..], size, used, Lines(Lists(), 7)) && out[size..] == old(out[size..])
    {
      var lists := Lists();
      used := 0;
      for i := 0 to 7
        invariant Holds(out[..], size, used, Lines(lists, i)) && out[size..] == old(out[size..])
      {
        used := AppendListLine(out, size, used, Label(i), lists[i], Lines(lists, i));
      }
    }

    /** dtnetprofile_to_string: what there is to show, and nothing beyond the buffer. */
    method ToString(out: array<char>, size: int)
      requires size <= out.Length
      modifies out
      ensures size <= 0 ==> out[..] == old(out[..])
      ensures size > 0 ==> Shows(out[..], Shown(Lists(), size)) && out[size..] == old(out[size..])
    {
      if size <= 0 {
        return;
      }
      out[0] := NUL;
      ghost var ls := Lists();
      var used := AppendLines(out, size);
      if used == 0 {
        used := BufAppend(out, size, used, "(empty)\n", Lines(ls, 7));
        EmptyIsHeld(ls, size, out[..], 0, used);
      } else {
        NotEmptyIsHeld(ls, size, out[..], used);
      }
      TrimFinal(out, size, used, Rendering(ls));
    }

    /** dtnetprofile_pack_length: just what packing takes. */
    function BytesNeeded(): (n: nat)
      reads this
      ensures n == |Packed(Texts(Lists()), 7)|
    {
      PackedLength(Lists(), 7);
      PackLength(Lists(), 7)
    }

    /** dtnetprofile_pack, its seven alike blocks written as a loop: the texts, each with its NUL, if they fit between
        the offset and the length. */
    method Pack(output: array<char>, offset: nat, length: nat) returns (r: int)
      requires length <= output.Length
      modifies output
      ensures r == if offset + BytesNeeded() <= length then BytesNeeded() else -1
      ensures if r >= 0 then Wrote(output[..], old(output[..]), offset, Packed(Texts(Lists()), 7))
              else Spared(output[..], old(output[..]), offset, length)
    {
      var lists, p: nat := Lists(), offset;
      ghost var was, texts := output[..], Texts(lists);
      for i := 0 to 7
        invariant PackedSoFar(output[..], was, offset, length, texts, i, p)
      {
        var n := PackNext(TextOf(lists[i]), output, p, length, was, offset, texts, i);
        if n < 0 {
          return -1;
        }
        p := p + n;
      }
      r := p - offset;
    }

    method SetList(i: nat, text: string)
      requires i < 7
      modifies this
      ensures Lists() == old(Lists())[i := Some(text)]
    {
      match i
      case 0 => nameList := Some(text);
      case 1 => versionList := Some(text);
      case 2 => urlList := Some(text);
      case 3 => roleList := Some(text);
      case 4 => subscriptionList := Some(text);
      case 5 => publicationList := Some(text);
      case _ => stateList := Some(text);
    }

    /** dtnetprofile_unpack: the strings that are there replace the first lists; it takes seven to succeed. */
    method Unpack(input: string, offset: nat) returns (r: int)
      modifies this
      ensures var found := Strings(input, offset, 7);
              && Lists() == Replaced(old(Lists()), found.texts)
              && r == if |found.texts| == 7 then found.end - offset else -1
    {
      var p := offset;
      ghost var was, found: seq<string> := Lists(), [];
      for i := 0 to 7
        invariant offset <= p && |found| == i && Strings(input, offset, i) == Found(found, p)
        invariant Lists() == Replaced(was, found)
      {
        var n, text := UnpackNext(input, p, offset, i, found);
        if n < 0 {
          return -1;
        }
        SetList(i, text);
        ReplacedNext(was, found, text);
        found := found + [text];
        p := p + n;
      }
      r := p - offset;
    }
  }
}
