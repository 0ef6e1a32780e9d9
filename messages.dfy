/**
 * The message store of the chat application: random message ids, the two
 * format checks, the message hash, and the object that keeps the ordered
 * list of stored messages with its running total and saves it to
 * `messages.json` after every store.
 */
module Messages {
  import opened JavaLang
  import JavaRegex
  import opened Records
  import opened Storage
  import Validation

  // ---------------------------------------------------------------------
  // Message ids and recipients
  // ---------------------------------------------------------------------

  /**
   * `checkMessageID`: true when the id is too short, that is, its `length()`
   * is below ten. Length counts UTF-16 code units, so ten or more characters
   * are never too short, fewer than five always are, and in between it depends
   * on how many characters need a surrogate pair.
   */
  function CheckMessageID(messageID: string): (tooShort: bool)
    ensures |messageID| >= 10 ==> !tooShort
    ensures |messageID| < 5 ==> tooShort
    ensures InBasicPlane(messageID) ==> (tooShort <==> |messageID| < 10)
  {
    Utf16LengthBasicPlane(messageID);
    Utf16Length(messageID) < 10
  }

  /**
   * `generateMessageID`: appends the decimal form of a random number below ten
   * until the builder holds ten characters. The random source is modelled as a
   * free choice of the digit on every round.
   */
  method GenerateMessageID() returns (id: string)
    ensures |id| == 10 && AllAsciiDigits(id)
    ensures !CheckMessageID(id)
  {
    var sb := "";
    while |sb| < 10
      invariant |sb| <= 10 && AllAsciiDigits(sb)
      decreases 10 - |sb|
    {
      var d :| 0 <= d < 10;
      var digit := IntToDecimal(d);
      assert |digit| == 1 && IsAsciiDigit(digit[0]);
      sb := sb + digit;
    }
    id := sb;
  }

  /**
   * The ids the application's test suite checks: ten digits is not too short,
   * five is. Five characters outside the Basic Multilingual Plane are ten code
   * units, so they are not too short either.
   */
  lemma MessageIdExamples()
    ensures !CheckMessageID("1234567890") && CheckMessageID("12345")
    ensures !CheckMessageID("\U{1F600}\U{1F600}\U{1F600}\U{1F600}\U{1F600}")
  {
    assert InBasicPlane("12345");
    var e := "\U{1F600}\U{1F600}\U{1F600}\U{1F600}\U{1F600}";
    assert forall k :: 0 <= k < |e| ==> IsSupplementary(e[k]);
  }

  /** `checkRecipient`: non-null and matches `\+27\d{9}`; it accepts exactly what `checkCellPhoneNumber` accepts. */
  function CheckRecipient(recipient: Option<string>): (ok: bool)
    ensures ok == Validation.CheckCellPhoneNumber(recipient)
  {
    if recipient.None? then false
    else
      Validation.CellPatternMeaning(recipient.value);
      JavaRegex.Matches(Validation.CellBody(), recipient.value)
  }

  /** The recipients the application's test suite checks. */
  lemma RecipientExamples()
    ensures CheckRecipient(Some("+27123456789"))
    ensures !CheckRecipient(Some("07123456789")) && !CheckRecipient(Some("+2712345678"))
    ensures !CheckRecipient(Some("+271234567890")) && !CheckRecipient(Some("abc")) && !CheckRecipient(None)
  {
    assert "+27123456789"[..3] == "+27";
    assert "07123456789"[0] != '+';
  }

  // ---------------------------------------------------------------------
  // The message hash
  // ---------------------------------------------------------------------

  /** The longest prefix of `s` free of `\s` characters. */
  function FirstWord(s: string): (w: string)
    ensures |w| <= |s| && w == s[..|w|] && NoWhitespace(w)
    ensures |w| == |s| || IsWhitespace(s[|w|])
    decreases |s|
  {
    if s == [] || IsWhitespace(s[0]) then [] else [s[0]] + FirstWord(s[1..])
  }

  /** The longest suffix of `s` free of `\s` characters. */
  function LastWord(s: string): (w: string)
    ensures IsTrailingWord(w, s) && NoWhitespace(w)
    decreases |s|
  {
    if s == [] || IsWhitespace(s[|s| - 1]) then []
    else LastWord(s[..|s| - 1]) + [s[|s| - 1]]
  }

  /** A whitespace-free prefix that ends at whitespace or at the end is the first word. */
  lemma {:induction false} FirstWordUnique(s: string, w: string)
    requires |w| <= |s| && w == s[..|w|] && NoWhitespace(w)
    requires |w| == |s| || IsWhitespace(s[|w|])
    ensures w == FirstWord(s)
    decreases |s|
  {
    if s == [] {
    } else if IsWhitespace(s[0]) {
    } else {
      assert w != [];
      var s', w' := s[1..], w[1..];
      assert w' == s'[..|w'|];
      assert |w'| < |s'| ==> s'[|w'|] == s[|w|];
      FirstWordUnique(s', w');
      assert w == [s[0]] + w';
    }
  }

  /** A whitespace-free suffix that starts after whitespace or at the start is the last word. */
  lemma {:induction false} LastWordUnique(s: string, w: string)
    requires IsTrailingWord(w, s) && NoWhitespace(w)
    ensures w == LastWord(s)
    decreases |s|
  {
    if s == [] {
    } else if IsWhitespace(s[|s| - 1]) {
    } else {
      assert w != [];
      var s', w' := s[..|s| - 1], w[..|w| - 1];
      assert w' == s'[|s'| - |w'|..];
      assert |w'| < |s'| ==> s'[|s'| - |w'| - 1] == s[|s| - |w| - 1];
      LastWordUnique(s', w');
      assert w == w' + [s[|s| - 1]];
    }
  }

  /** What `trim` returns is empty or neither starts nor ends with `\s`. */
  lemma TrimmedIsWordRun(s: string)
    ensures Trim(s) == [] || IsWordRun(Trim(s))
  {
  }

  /**
   * On trimmed text, the words `createMessageHash` picks from `split("\\s+")`
   * (the first, and the last when there are two or more, else the first again)
   * are the first and the last word of the text.
   */
  lemma PickedWords(t: string)
    requires t == [] || IsWordRun(t)
    ensures var words := SplitOnWhitespace(t);
            var first := if |words| > 0 then words[0] else "";
            first == FirstWord(t)
            && (if |words| > 1 then words[|words| - 1] else first) == LastWord(t)
  {
    if t == [] {
      SplitOfEmpty();
    } else {
      SplitOfWordRun(t);
      PickedPieces(t);
    }
  }

  /** The same on the pieces of a word run, before trailing empty pieces are dropped. */
  lemma PickedPieces(t: string)
    requires IsWordRun(t)
    ensures var pieces := SplitPieces(t);
            pieces[0] == FirstWord(t)
            && (if |pieces| > 1 then pieces[|pieces| - 1] else pieces[0]) == LastWord(t)
  {
    var pieces := SplitPieces(t);
    var i := FirstWhitespace(t);
    assert pieces[0] == t[..i] by { FirstPiece(t); }
    FirstWordUnique(t, t[..i]);
    if i < |t| {
      assert |pieces| > 1 by { SplitPiecesStep(t); }
      PiecesOfWordRun(t);
      LastPieceOfWordRun(t);
      LastWordUnique(t, pieces[|pieces| - 1]);
    } else {
      assert t[..i] == t;
      LastWordUnique(t, t);
    }
  }

  /** Upper-casing the hash text leaves the colons and the number alone. */
  lemma UpperHashFields(prefix: string, number: string, first: string, last: string)
    requires forall k :: 0 <= k < |number| ==> !IsAsciiLower(number[k])
    ensures ToUpper(prefix + ":" + number + ":" + first + last)
            == ToUpper(prefix) + ":" + number + ":" + ToUpper(first) + ToUpper(last)
  {
    var middle := ":" + number + ":";
    assert ToUpper(middle) == middle;
    assert prefix + ":" + number + ":" + first + last == prefix + middle + first + last;
    ToUpperConcat(prefix, middle);
    ToUpperConcat(prefix + middle, first);
    ToUpperConcat(prefix + middle + first, last);
  }

  /** The decimal form of a number holds no lower-case letter. */
  lemma DecimalNotLower(n: int)
    ensures forall k :: 0 <= k < |IntToDecimal(n)| ==> !IsAsciiLower(IntToDecimal(n)[k])
  {
    var d := NatToDecimal(if n < 0 then -n else n);
    assert forall k :: 0 <= k < |d| ==> IsAsciiDigit(d[k]);
    if n < 0 {
      assert forall k :: 0 < k < |IntToDecimal(n)| ==> IntToDecimal(n)[k] == d[k - 1];
    }
  }

  /**
   * `createMessageHash`: the first two characters of the id, a colon, the
   * message number, a colon, then the first and the last word of the trimmed
   * text (the only word twice when there is one, nothing when there is none),
   * the whole upper-cased.
   */
  function CreateMessageHash(id: string, messageNum: int32, message: string): (hash: string)
    requires |id| >= 2
    ensures var t := Trim(message);
            hash == ToUpper(id[..2]) + ":" + IntToDecimal(messageNum as int) + ":"
                    + ToUpper(FirstWord(t)) + ToUpper(LastWord(t))
  {
    var words := SplitOnWhitespace(Trim(message));
    var firstWord := if |words| > 0 then words[0] else "";
    var lastWord := if |words| > 1 then words[|words| - 1] else firstWord;
    TrimmedIsWordRun(message);
    PickedWords(Trim(message));
    DecimalNotLower(messageNum as int);
    UpperHashFields(id[..2], IntToDecimal(messageNum as int), firstWord, lastWord);
    ToUpper(id[..2] + ":" + IntToDecimal(messageNum as int) + ":" + firstWord + lastWord)
  }

  /** An empty or blank text contributes nothing: the hash ends with the colon after the number. */
  lemma HashOfBlankText(id: string, messageNum: int32, message: string)
    requires |id| >= 2
    requires forall k :: 0 <= k < |message| ==> IsTrimmed(message[k])
    ensures CreateMessageHash(id, messageNum, message) == ToUpper(id[..2]) + ":" + IntToDecimal(messageNum as int) + ":"
  {
    TrimBlank(message);
    assert ToUpper([]) == [];
  }

  /** A text of one word contributes that word twice: the test suite's "Greeting" gives "GREETINGGREETING". */
  lemma HashOfOneWord(id: string, messageNum: int32, message: string)
    requires |id| >= 2
    requires Trim(message) != [] && NoWhitespace(Trim(message))
    ensures var w := ToUpper(Trim(message));
            CreateMessageHash(id, messageNum, message) == ToUpper(id[..2]) + ":" + IntToDecimal(messageNum as int) + ":" + w + w
  {
    var t := Trim(message);
    FirstWordUnique(t, t);
    assert t[|t| - |t|..] == t;
    LastWordUnique(t, t);
  }

  /**
   * The number can be read back from a hash: in `a:n:tail`, the shape
   * `CreateMessageHash` builds with the two-character `a` taken from the id,
   * the number sits between the colons at index 2 and at index 3 + its
   * length, and parses back to `n`.
   */
  lemma HashNumberField(a: string, n: int, tail: string)
    requires |a| == 2
    ensures var h := a + ":" + IntToDecimal(n) + ":" + tail;
            var d := |IntToDecimal(n)|;
            |h| >= d + 4 && h[..2] == a && h[2] == ':' && h[3 + d] == ':'
            && ParseDecimal(h[3..3 + d]) == n
  {
    var number := IntToDecimal(n);
    var h := a + ":" + number + ":" + tail;
    assert h == a + [':'] + number + [':'] + tail;
    assert h[3..3 + |number|] == number by {
      forall k | 0 <= k < |number| ensures h[3 + k] == number[k] { }
    }
    IntToDecimalRoundTrip(n);
  }

  /**
   * A text of several words contributes its first and its last word: the
   * test suite's "Hello world this is a test" gives "HELLOTEST".
   */
  lemma HashOfSeveralWords(id: string, messageNum: int32, message: string, first: string, middle: string, last: string)
    requires |id| >= 2
    requires message == first + " " + middle + " " + last
    requires first != [] && NoWhitespace(first) && !IsTrimmed(first[0])
    requires last != [] && NoWhitespace(last) && !IsTrimmed(last[|last| - 1])
    ensures CreateMessageHash(id, messageNum, message)
            == ToUpper(id[..2]) + ":" + IntToDecimal(messageNum as int) + ":" + ToUpper(first) + ToUpper(last)
  {
    assert message[0] == first[0] && message[|message| - 1] == last[|last| - 1];
    TrimKeeps(message);
    assert message[..|first|] == first && message[|first|] == ' ';
    FirstWordUnique(message, first);
    assert message[|message| - |last|..] == last && message[|message| - |last| - 1] == ' ';
    LastWordUnique(message, last);
  }

  /** An empty message 3 under an id starting "EF" hashes to "EF:3:". */
  lemma HashExampleEmpty(id: string)
    requires |id| >= 2 && id[..2] == "EF"
    ensures CreateMessageHash(id, 3, "") == "EF:3:"
  {
    HashOfBlankText(id, 3, "");
    assert ToUpper("EF") == "EF";
    assert IntToDecimal(3) == [DigitChar(3)];
  }

  /** A message 4 of three spaces under an id starting "GH" hashes to "GH:4:". */
  lemma HashExampleBlank(id: string)
    requires |id| >= 2 && id[..2] == "GH"
    ensures CreateMessageHash(id, 4, "   ") == "GH:4:"
  {
    HashOfBlankText(id, 4, "   ");
    assert ToUpper("GH") == "GH";
    assert IntToDecimal(4) == [DigitChar(4)];
  }

  // ---------------------------------------------------------------------
  // The store
  // ---------------------------------------------------------------------

  /** `Messages`: the stored messages in order, their running total, and the file they are saved to. */
  class Messages {
    var messages: seq<MessageEntry>
    var totalMessages: int32
    /** `messages.json`; every instance opens the same file. */
    const file: JsonFile<seq<MessageEntry>>

    /** The total counts the stored messages. */
    predicate Consistent()
      reads this
    {
      totalMessages as int == |messages|
    }

    /** Starts empty with a total of zero, then loads what the file holds. */
    constructor(file: JsonFile<seq<MessageEntry>>)
      requires file.stored.Document? ==> |file.stored.value| <= INT_MAX
      ensures this.file == file
      ensures messages == (if file.stored.Document? then file.stored.value else [])
      ensures Consistent()
    {
      this.file := file;
      messages := [];
      totalMessages := 0;
      new;
      LoadMessagesFromJson();
    }

    /** `setTotalMessages`: overwrites the total, whatever the list holds. */
    method SetTotalMessages(tm: int32)
      modifies this
      ensures totalMessages == tm && messages == old(messages)
    {
      totalMessages := tm;
    }

    /** `returnTotalMessages`. */
    method ReturnTotalMessages() returns (total: int32)
      ensures total == totalMessages
    {
      total := totalMessages;
    }

    /**
     * `storeMessage`: appends one entry at the end, adds one to the total
     * (wrapping like Java's `int`) and saves the whole list.
     */
    method StoreMessage(id: string, hash: string, recipient: string, text: string)
      modifies this, file
      ensures messages == old(messages) + [MessageEntry(id, hash, recipient, text)]
      ensures totalMessages == Increment(old(totalMessages))
      ensures file.stored == (if old(file.writable) then Document(messages) else old(file.stored))
      ensures file.writable == old(file.writable)
      ensures old(Consistent()) && |old(messages)| < INT_MAX ==> Consistent()
    {
      messages := messages + [MessageEntry(id, hash, recipient, text)];
      totalMessages := Increment(totalMessages);
      WriteMessagesToJson();
    }

    /** `writeMessagesToJson`: saves the list; when the writer cannot be opened the error is reported and the file keeps its old contents. */
    method WriteMessagesToJson()
      modifies file
      ensures file.stored == (if old(file.writable) then Document(messages) else old(file.stored))
      ensures file.writable == old(file.writable)
    {
      file.Write(messages);
    }

    /**
     * `loadMessagesFromJson`: a non-null array read from the file is appended
     * and the total becomes the length of the list; a missing file or a `null`
     * document leaves everything as it was.
     */
    method LoadMessagesFromJson()
      requires file.stored.Document? ==> |messages| + |file.stored.value| <= INT_MAX
      modifies this
      ensures file.stored.Document? ==> messages == old(messages) + file.stored.value && Consistent()
      ensures !file.stored.Document? ==> messages == old(messages) && totalMessages == old(totalMessages)
    {
      match file.stored
      case Document(loaded) =>
        messages := messages + loaded;
        totalMessages := |messages| as int32;
      case _ =>
    }
  }

  /**
   * Storing `entries` one after another in a store opened where no file
   * exists yet, then opening a second store on the same file, gives back the
   * same entries in the same order, with their number as the total.
   */
  method StoreThenReload(file: JsonFile<seq<MessageEntry>>, entries: seq<MessageEntry>) returns (reloaded: Messages)
    requires file.stored == Missing && file.writable
    requires |entries| <= INT_MAX
    modifies file
    ensures reloaded.messages == entries && reloaded.totalMessages as int == |entries|
  {
    var store := new Messages(file);
    var i := 0;
    while i < |entries|
      invariant 0 <= i <= |entries|
      invariant store.file == file && file.writable
      invariant store.messages == entries[..i] && store.Consistent()
      invariant file.stored == if i == 0 then Missing else Document(entries[..i])
    {
      var e := entries[i];
      store.StoreMessage(e.messageId, e.messageHash, e.recipient, e.message);
      assert entries[..i + 1] == entries[..i] + [e];
      i := i + 1;
    }
    assert entries[..i] == entries;
    reloaded := new Messages(file);
  }
}
