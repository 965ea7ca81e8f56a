/**
  `WhatsAppIntegration.openWhatsApp`: the chat link opened in a new tab is
  `https://wa.me/` + the configured number with its first `+` removed +
  `?text=` + the message passed through `encodeURIComponent`.
 */
module WhatsApp {

  import opened Options
  import opened UriEncoding

  const Prefix := "https://wa.me/"
  const Separator := "?text="

  /** The number the integration is configured with in this revision: a placeholder. */
  const PlaceholderNumber := "#"

  /** The greeting sent from the floating button. */
  const FloatingGreeting := "Halo, saya tertarik dengan layanan RawatBayi.id. Bisa tolong berikan informasi lebih lanjut?"

  /** The greeting sent from a call-to-action link to the contact section. */
  const ContactGreeting := "Halo, saya ingin konsultasi mengenai layanan perawatan bayi."

  /** Position of the first `c` in `s`, or `|s|` when there is none. */
  function IndexOf(s: string, c: char): (i: nat)
    ensures i <= |s|
    ensures i < |s| ==> s[i] == c
    ensures forall j :: 0 <= j < i ==> s[j] != c
    ensures i < |s| <==> c in s
    decreases |s|
  {
    if |s| == 0 then 0 else if s[0] == c then 0 else 1 + IndexOf(s[1..], c)
  }

  /** `s.replace("+", "")`: a string pattern makes `replace` act on the first occurrence only. */
  function StripFirstPlus(s: string): (r: string)
    ensures '+' !in s ==> r == s
    ensures '+' in s ==> r == s[..IndexOf(s, '+')] + s[IndexOf(s, '+') + 1..]
    decreases |s|
  {
    if |s| == 0 then s
    else if s[0] == '+' then
      assert s[..0] == [];
      s[1..]
    else
      SkipFirst(s);
      [s[0]] + StripFirstPlus(s[1..])
  }

  /** How the position of the first `+` and the pieces around it shift when a leading non-`+` is dropped. */
  lemma {:induction false} SkipFirst(s: string)
    requires |s| > 0 && s[0] != '+'
    ensures s == [s[0]] + s[1..]
    ensures '+' in s <==> '+' in s[1..]
    ensures '+' in s ==> IndexOf(s, '+') == IndexOf(s[1..], '+') + 1
    ensures '+' in s ==> s[..IndexOf(s, '+')] == [s[0]] + s[1..][..IndexOf(s[1..], '+')]
    ensures '+' in s ==> s[IndexOf(s, '+') + 1..] == s[1..][IndexOf(s[1..], '+') + 1..]
  {
    assert s == [s[0]] + s[1..];
    if '+' in s {
      var k := IndexOf(s[1..], '+');
      assert s[..k + 1] == [s[0]] + s[1..][..k];
      assert s[k + 2..] == s[1..][k + 1..];
    }
  }

  /** The chat link for a configured number and a message. */
  function ChatUrl(phone: string, message: string): (url: string)
    ensures |Prefix| <= |url| && url[..|Prefix|] == Prefix
    ensures |Prefix| + |StripFirstPlus(phone)| <= |url|
    ensures url[|Prefix|..|Prefix| + |StripFirstPlus(phone)|] == StripFirstPlus(phone)
    ensures var n := |Prefix| + |StripFirstPlus(phone)|;
      && n + |Separator| <= |url|
      && url[n..n + |Separator|] == Separator
      && url[n + |Separator|..] == Encode(message)
  {
    var digits := StripFirstPlus(phone);
    FourParts(Prefix, digits, Separator, Encode(message));
    Prefix + digits + Separator + Encode(message)
  }

  /** Where each of four concatenated parts sits in the whole. */
  lemma FourParts(a: string, b: string, c: string, d: string)
    ensures (a + b + c + d)[..|a|] == a
    ensures (a + b + c + d)[|a|..|a| + |b|] == b
    ensures (a + b + c + d)[|a| + |b|..|a| + |b| + |c|] == c
    ensures (a + b + c + d)[|a| + |b| + |c|..] == d
  {
  }

  /**
    Only the first `+` goes: the number is one character shorter and has
    exactly one `+` fewer (the order of the rest is in `StripFirstPlus`'s contract).
   */
  lemma {:induction false} StripFirstPlusRemovesOne(s: string)
    requires '+' in s
    ensures |StripFirstPlus(s)| == |s| - 1
    ensures multiset(StripFirstPlus(s)) + multiset{'+'} == multiset(s)
    decreases |s|
  {
    assert s == [s[0]] + s[1..];
    if s[0] != '+' {
      StripFirstPlusRemovesOne(s[1..]);
    }
  }

  /** A number without `+` is used as it is. */
  lemma NoPlusKept(s: string)
    requires '+' !in s
    ensures StripFirstPlus(s) == s
  {
  }

  /** In `a + b + c + d` where only `c` holds a `?`, at its start, that is the only `?`. */
  lemma OnlyQuestionMark(a: string, b: string, c: string, d: string)
    requires '?' !in a && '?' !in b && '?' !in d
    requires |c| > 0 && c[0] == '?' && '?' !in c[1..]
    ensures forall i :: 0 <= i < |a + b + c + d| && (a + b + c + d)[i] == '?' ==> i == |a| + |b|
  {
    var s := a + b + c + d;
    assert forall k :: 0 <= k < |a| ==> s[k] == a[k];
    assert forall k :: |a| <= k < |a| + |b| ==> s[k] == b[k - |a|];
    assert forall k :: |a| + |b| < k < |a| + |b| + |c| ==> s[k] == c[1..][k - |a| - |b| - 1];
    assert forall k :: |a| + |b| + |c| <= k < |s| ==> s[k] == d[k - |a| - |b| - |c|];
  }

  /**
    The link has exactly one query separator: when the number (after the strip)
    has no `?`, the only `?` in the link is the one that starts `?text=`.
   */
  lemma OneQuerySeparator(phone: string, message: string)
    requires '?' !in StripFirstPlus(phone)
    ensures forall i :: 0 <= i < |ChatUrl(phone, message)| && ChatUrl(phone, message)[i] == '?' ==>
      i == |Prefix| + |StripFirstPlus(phone)|
  {
    EncodedHasNoDelimiters(message);
    var encoded := Encode(message);
    assert '?' !in encoded by {
      assert forall k :: 0 <= k < |encoded| ==> encoded[k] != '?';
    }
    assert '?' !in Separator[1..];
    OnlyQuestionMark(Prefix, StripFirstPlus(phone), Separator, encoded);
  }

  /** The parts a receiver reads back from a chat link: the number and the decoded message bytes. */
  datatype Chat = Chat(number: string, text: seq<Byte>)

  /**
    Reads a chat link back: drop the prefix, take the number up to the first
    `?`, expect `?text=`, and percent-decode the rest.
   */
  function ParseChatUrl(url: string): Option<Chat> {
    if |url| < |Prefix| || url[..|Prefix|] != Prefix then None
    else
      var rest := url[|Prefix|..];
      var q := IndexOf(rest, '?');
      if q + |Separator| > |rest| || rest[q..q + |Separator|] != Separator then None
      else
        match Decode(rest[q + |Separator|..])
        case None => None
        case Some(text) => Some(Chat(rest[..q], text))
  }

  /**
    The link round-trips: reading it back gives the number with its first `+`
    removed and exactly the UTF-8 bytes of the message, provided the number
    itself has no `?`.
   */
  lemma ChatUrlRoundTrip(phone: string, message: string)
    requires '?' !in StripFirstPlus(phone)
    ensures ParseChatUrl(ChatUrl(phone, message)) == Some(Chat(StripFirstPlus(phone), Utf8String(message)))
  {
    EncodeRoundTrip(message);
    ParseAssembled(StripFirstPlus(phone), Encode(message));
  }

  /** Reading back a link assembled from a `?`-free number and any component. */
  lemma ParseAssembled(digits: string, component: string)
    requires '?' !in digits
    ensures ParseChatUrl(Prefix + digits + Separator + component) ==
      (match Decode(component) case None => None case Some(text) => Some(Chat(digits, text)))
  {
    var url := Prefix + digits + Separator + component;
    assert url[..|Prefix|] == Prefix;
    var rest := url[|Prefix|..];
    assert rest == digits + Separator + component;
    QueryAfterDigits(digits, component);
  }

  /** After the prefix, the first `?` is the one that starts `?text=`. */
  lemma QueryAfterDigits(digits: string, component: string)
    requires '?' !in digits
    ensures IndexOf(digits + Separator + component, '?') == |digits|
    ensures (digits + Separator + component)[|digits|..|digits| + |Separator|] == Separator
    ensures (digits + Separator + component)[|digits| + |Separator|..] == component
    ensures (digits + Separator + component)[..|digits|] == digits
  {
    var rest := digits + Separator + component;
    assert forall j :: 0 <= j < |digits| ==> rest[j] == digits[j];
    assert rest[|digits|] == '?';
  }

  /** A number without `+` and a message of unreserved characters appear in the link verbatim. */
  lemma PlainChatUrl(phone: string, message: string)
    requires '+' !in phone
    requires forall i :: 0 <= i < |message| ==> Unreserved(message[i])
    ensures ChatUrl(phone, message) == Prefix + phone + Separator + message
  {
    EncodeIdentityIffUnreserved(message);
  }

  /**
    A worked example: number 6281234567890 and message "Hi". The literals come
    in through the precondition, because unfolding `Encode` and
    `StripFirstPlus` on literal arguments is costly.
   */
  lemma ExampleLink(phone: string, message: string)
    requires phone == "6281234567890" && message == "Hi"
    ensures ChatUrl(phone, message) == "https://wa.me/6281234567890?text=Hi"
  {
    NoPlusKept(phone);
    ExampleLinkParts(phone, message);
    UnreservedLink(phone, message, phone, "https://wa.me/6281234567890?text=Hi");
  }

  /** The facts about the literals of `ExampleLink`, kept apart from `ChatUrl` so that each proof stays small. */
  lemma ExampleLinkParts(phone: string, message: string)
    requires phone == "6281234567890" && message == "Hi"
    ensures forall i :: 0 <= i < |message| ==> Unreserved(message[i])
    ensures "https://wa.me/6281234567890?text=Hi" == Prefix + phone + Separator + message
  {
    assert Unreserved(message[0]) && Unreserved(message[1]);
  }

  /**
    A leading `+` on an international number is dropped, and only that one.
    The literals come in through the precondition, as in `ExampleLink`.
   */
  lemma InternationalNumber(phone: string, message: string)
    requires phone == "+62+812" && message == "Hi"
    ensures ChatUrl(phone, message) == "https://wa.me/62+812?text=Hi"
  {
    LeadingPlusDropped(phone);
    InternationalNumberParts(phone, message);
    UnreservedLink(phone, message, phone[1..], "https://wa.me/62+812?text=Hi");
  }

  /** The facts about the literals of `InternationalNumber`, kept apart from `ChatUrl` as in `ExampleLinkParts`. */
  lemma InternationalNumberParts(phone: string, message: string)
    requires phone == "+62+812" && message == "Hi"
    ensures forall i :: 0 <= i < |message| ==> Unreserved(message[i])
    ensures "https://wa.me/62+812?text=Hi" == Prefix + phone[1..] + Separator + message
  {
    assert Unreserved(message[0]) && Unreserved(message[1]);
  }

  /** A message of unreserved characters appears in the link verbatim, after the stripped number. */
  lemma UnreservedLink(phone: string, message: string, digits: string, url: string)
    requires StripFirstPlus(phone) == digits
    requires forall i :: 0 <= i < |message| ==> Unreserved(message[i])
    requires url == Prefix + digits + Separator + message
    ensures ChatUrl(phone, message) == url
  {
    EncodeIdentityIffUnreserved(message);
  }

  /** A number that starts with `+` loses exactly that character. */
  lemma LeadingPlusDropped(s: string)
    requires |s| > 0 && s[0] == '+'
    ensures StripFirstPlus(s) == s[1..]
  {
  }

  /**
    With the placeholder number of this revision the link is
    `https://wa.me/#?text=…`: the `#` starts the fragment, so the query
    separator and the message end up inside it.
   */
  lemma PlaceholderLink(message: string)
    ensures ChatUrl(PlaceholderNumber, message) == "https://wa.me/#?text=" + Encode(message)
    ensures IndexOf(ChatUrl(PlaceholderNumber, message), '#') == |Prefix|
    ensures IndexOf(ChatUrl(PlaceholderNumber, message), '#') < IndexOf(ChatUrl(PlaceholderNumber, message), '?')
  {
    NoPlusKept(PlaceholderNumber);
    var text := Encode(message);
    assert ChatUrl(PlaceholderNumber, message) == Prefix + "#" + Separator + text;
    PlaceholderPrefix(text);
    FragmentBeforeQuery(text);
  }

  /** With the placeholder number, the part of the link before the message. */
  lemma PlaceholderPrefix(text: string)
    ensures Prefix + "#" + Separator + text == "https://wa.me/#?text=" + text
  {
  }

  /** In `https://wa.me/#?text=` followed by anything, the first `#` precedes the first `?`. */
  lemma FragmentBeforeQuery(text: string)
    ensures IndexOf(Prefix + "#" + Separator + text, '#') == |Prefix|
    ensures IndexOf(Prefix + "#" + Separator + text, '#') < IndexOf(Prefix + "#" + Separator + text, '?')
  {
    var url := Prefix + "#" + Separator + text;
    assert forall j :: 0 <= j < |Prefix| ==> url[j] == Prefix[j] != '#' && url[j] != '?';
    assert url[|Prefix|] == '#';
    assert url[|Prefix| + 1] == '?';
  }

  /** The floating greeting is a question. */
  lemma FloatingGreetingEnd(message: string)
    requires message == FloatingGreeting
    ensures |message| > 0 && message[|message| - 1] == '?'
  {
  }

  /** The contact greeting is a sentence. */
  lemma ContactGreetingEnd(message: string)
    requires message == ContactGreeting
    ensures |message| > 0 && message[|message| - 1] == '.'
  {
  }

  /** With the placeholder number, a link ends with the encoding of the message's last character. */
  lemma PlaceholderLinkEnding(message: string, c: char)
    requires |message| > 0 && message[|message| - 1] == c
    ensures ChatUrl(PlaceholderNumber, message) == "https://wa.me/#?text=" + Encode(message[..|message| - 1]) + EncodeChar(c)
  {
    PlaceholderLink(message);
    EncodeLast(message, c);
    Associative("https://wa.me/#?text=", Encode(message[..|message| - 1]), EncodeChar(c));
  }

  /** `.` is unreserved: it is sent as it is. */
  lemma FullStopKept()
    ensures EncodeChar('.') == "."
  {
    assert Unreserved('.');
  }

  /** `?` is not unreserved: it is sent as its one UTF-8 byte, 0x3F. */
  lemma QuestionMarkEscaped()
    ensures EncodeChar('?') == "%3F"
  {
    assert Utf8('?') == [0x3F];
    assert EscapeAll([0x3F]) == Escape(0x3F) + EscapeAll([]);
  }

  /**
    The link the floating button opens: the placeholder number, then the
    encoded greeting, whose closing `?` is escaped as `%3F`. The greeting comes
    in through the precondition, as in `ExampleLink`.
   */
  lemma FloatingLink(message: string)
    requires message == FloatingGreeting
    ensures ChatUrl(PlaceholderNumber, message) == "https://wa.me/#?text=" + Encode(message[..|message| - 1]) + "%3F"
  {
    FloatingGreetingEnd(message);
    PlaceholderLinkEnding(message, '?');
    QuestionMarkEscaped();
  }

  /**
    The link a call-to-action to the contact section opens: the placeholder
    number, then the encoded greeting, whose closing `.` is unreserved and
    stays as it is.
   */
  lemma ContactLink(message: string)
    requires message == ContactGreeting
    ensures ChatUrl(PlaceholderNumber, message) == "https://wa.me/#?text=" + Encode(message[..|message| - 1]) + "."
  {
    ContactGreetingEnd(message);
    PlaceholderLinkEnding(message, '.');
    FullStopKept();
  }
}
