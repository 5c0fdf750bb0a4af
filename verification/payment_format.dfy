/**
 * The "payment sent" service message with a known invoice: the localized template
 * `Notification_PaymentSent` is copied into an attributed string and its first `{amount}`,
 * then its first `{name}`, then its first `{title}` are replaced, each only when found, by
 * runs in their own font.
 *
 * An attributed string is modelled as its characters, each carrying its font; the colour
 * is the same for every run and is left out.
 */
module PaymentFormat {
  import opened Wrappers
  import opened Text

  datatype Font = TitleFont | TitleBoldFont

  datatype StyledChar = StyledChar(ch: char, font: Font)

  type AttributedString = seq<StyledChar>

  const AmountPlaceholder: string := "{amount}"
  const TitlePlaceholder: string := "{title}"

  /** `NSAttributedString(string: s, font: font, ...)` */
  function Styled(s: string, font: Font): (r: AttributedString)
    ensures |r| == |s|
    ensures forall i | 0 <= i < |s| :: r[i] == StyledChar(s[i], font)
  {
    seq(|s|, i requires 0 <= i < |s| => StyledChar(s[i], font))
  }

  /** The `.string` of an attributed string. */
  function Characters(a: AttributedString): (r: string)
    ensures |r| == |a|
    ensures forall i | 0 <= i < |a| :: r[i] == a[i].ch
  {
    seq(|a|, i requires 0 <= i < |a| => a[i].ch)
  }

  /**
   * Looks up the first occurrence of `placeholder` in the characters of `a` and, if there is
   * one, replaces those characters by `replacement` (`replaceCharacters(in:with:)`).
   */
  function ReplaceFirst(a: AttributedString, placeholder: string, replacement: AttributedString): (r: AttributedString)
    ensures |placeholder| == 0 || !Contains(Characters(a), placeholder) ==> r == a
    ensures |placeholder| > 0 && Contains(Characters(a), placeholder) ==>
      |r| == |a| - |placeholder| + |replacement|
    ensures forall i | |placeholder| > 0 && FirstOccurrence(Characters(a), placeholder, i) ::
      r == a[..i] + replacement + a[i + |placeholder|..]
  {
    match FindFirst(Characters(a), placeholder)
    case None => a
    case Some(i) => a[..i] + replacement + a[i + |placeholder|..]
  }

  /** The composed message for a payment of `amount` to `botName` for the invoice `invoiceTitle`. */
  function PaymentSentText(template: string, amount: string, botName: string, invoiceTitle: string): (r: AttributedString) {
    var initial := Styled(template, TitleFont);
    var withAmount := ReplaceFirst(initial, AmountPlaceholder, Styled(amount, TitleBoldFont));
    var withName := ReplaceFirst(withAmount, NamePlaceholder, Styled(botName, TitleBoldFont));
    ReplaceFirst(withName, TitlePlaceholder, Styled(invoiceTitle, TitleFont))
  }

  // Reference: the same replacement on plain strings, as a left-to-right scan.

  /** The first occurrence of `placeholder` in `s` replaced by `replacement`; `s` if there is none. */
  function ReplaceFirstText(s: string, placeholder: string, replacement: string): string
    decreases |s|
  {
    if |placeholder| == 0 || |s| < |placeholder| then s
    else if s[..|placeholder|] == placeholder then replacement + s[|placeholder|..]
    else [s[0]] + ReplaceFirstText(s[1..], placeholder, replacement)
  }

  lemma CharactersConcat(a: AttributedString, b: AttributedString)
    ensures Characters(a + b) == Characters(a) + Characters(b)
  {
  }

  lemma CharactersStyled(s: string, font: Font)
    ensures Characters(Styled(s, font)) == s
  {
  }

  lemma OccursShift(s: string, placeholder: string, j: nat)
    requires |s| > 0
    ensures OccursAt(s, placeholder, j + 1) <==> OccursAt(s[1..], placeholder, j)
  {
    if j + 1 + |placeholder| <= |s| {
      assert s[j + 1..j + 1 + |placeholder|] == s[1..][j..j + |placeholder|];
    }
  }

  /** Without a match at the start, the first match of `s` is one past that of `s[1..]`. */
  lemma FindFirstShift(s: string, placeholder: string)
    requires |placeholder| > 0 && |s| > 0
    requires !OccursAt(s, placeholder, 0)
    ensures FindFirst(s[1..], placeholder).None? ==> FindFirst(s, placeholder).None?
    ensures FindFirst(s[1..], placeholder).Some? ==> FindFirst(s, placeholder) == Some(FindFirst(s[1..], placeholder).value + 1)
  {
    forall j | 0 <= j ensures OccursAt(s, placeholder, j + 1) <==> OccursAt(s[1..], placeholder, j) {
      OccursShift(s, placeholder, j);
    }
    if FindFirst(s[1..], placeholder).None? {
      forall k | 0 <= k <= |s| ensures !OccursAt(s, placeholder, k) {
        if k > 0 {
          assert !OccursAt(s[1..], placeholder, k - 1);
        }
      }
    } else {
      var i := FindFirst(s[1..], placeholder).value;
      assert OccursAt(s, placeholder, i + 1);
      assert Contains(s, placeholder);
      forall j | 1 <= j < i + 1 ensures !OccursAt(s, placeholder, j) {
        OccursShift(s, placeholder, j - 1);
      }
    }
  }

  /** The scan agrees with the replacement at the location `FindFirst` reports. */
  lemma {:induction false} ReplaceFirstTextAtFirst(s: string, placeholder: string, replacement: string)
    ensures ReplacedAtFirst(s, placeholder, replacement)
    decreases |s|
  {
    var n := |placeholder|;
    if n == 0 || |s| < n {
      if n > 0 {
        assert forall j | 0 <= j <= |s| :: !OccursAt(s, placeholder, j);
      }
    } else if s[..n] == placeholder {
      assert OccursAt(s, placeholder, 0);
      assert Contains(s, placeholder);
      assert FindFirst(s, placeholder).value == 0;
    } else {
      ReplaceFirstTextAtFirst(s[1..], placeholder, replacement);
      ReplaceFirstTextShift(s, placeholder, replacement);
    }
  }

  /** `ReplaceFirstText` replaces exactly at the location `FindFirst` reports, if any. */
  ghost predicate ReplacedAtFirst(s: string, placeholder: string, replacement: string) {
    match FindFirst(s, placeholder)
    case None => ReplaceFirstText(s, placeholder, replacement) == s
    case Some(i) => ReplaceFirstText(s, placeholder, replacement) == s[..i] + replacement + s[i + |placeholder|..]
  }

  /** The scan step: without a match at the start, agreement carries over from the tail. */
  lemma ReplaceFirstTextShift(s: string, placeholder: string, replacement: string)
    requires 0 < |placeholder| <= |s| && s[..|placeholder|] != placeholder
    requires ReplacedAtFirst(s[1..], placeholder, replacement)
    ensures ReplacedAtFirst(s, placeholder, replacement)
  {
    var tail := s[1..];
    assert !OccursAt(s, placeholder, 0);
    FindFirstShift(s, placeholder);
    assert ReplaceFirstText(s, placeholder, replacement) == [s[0]] + ReplaceFirstText(tail, placeholder, replacement);
    assert s == [s[0]] + tail;
    match FindFirst(tail, placeholder)
    case Some(i) =>
      ConsSplice(s[0], tail, i, |placeholder|, replacement);
    case None =>
  }

  lemma ConsSplice(c: char, tail: string, i: nat, n: nat, replacement: string)
    requires i + n <= |tail|
    ensures [c] + (tail[..i] + replacement + tail[i + n..]) == ([c] + tail)[..i + 1] + replacement + ([c] + tail)[i + 1 + n..]
  {
    assert ([c] + tail)[..i + 1] == [c] + tail[..i];
    assert ([c] + tail)[i + 1 + n..] == tail[i + n..];
  }

  /** The styled replacement does, on the characters, what the plain-string replacement does. */
  lemma CharactersOfReplaceFirst(a: AttributedString, placeholder: string, replacement: AttributedString)
    ensures Characters(ReplaceFirst(a, placeholder, replacement)) ==
            ReplaceFirstText(Characters(a), placeholder, Characters(replacement))
  {
    var s := Characters(a);
    ReplaceFirstTextAtFirst(s, placeholder, Characters(replacement));
    if FindFirst(s, placeholder).Some? {
      var i := FindFirst(s, placeholder).value;
      CharactersConcat(a[..i] + replacement, a[i + |placeholder|..]);
      CharactersConcat(a[..i], replacement);
      assert Characters(a[..i]) == s[..i];
      assert Characters(a[i + |placeholder|..]) == s[i + |placeholder|..];
    }
  }

  /**
   * The text of the composed message is the template with its first `{amount}`, then its
   * first `{name}`, then its first `{title}` replaced, in that order, on the string so far.
   */
  lemma {:induction false} PaymentSentTextCharacters(template: string, amount: string, botName: string, invoiceTitle: string)
    ensures Characters(PaymentSentText(template, amount, botName, invoiceTitle)) ==
      ReplaceFirstText(ReplaceFirstText(ReplaceFirstText(template, AmountPlaceholder, amount), NamePlaceholder, botName),
                       TitlePlaceholder, invoiceTitle)
  {
    var initial := Styled(template, TitleFont);
    var withAmount := ReplaceFirst(initial, AmountPlaceholder, Styled(amount, TitleBoldFont));
    var withName := ReplaceFirst(withAmount, NamePlaceholder, Styled(botName, TitleBoldFont));
    CharactersStyled(template, TitleFont);
    CharactersStyled(amount, TitleBoldFont);
    CharactersStyled(botName, TitleBoldFont);
    CharactersStyled(invoiceTitle, TitleFont);
    CharactersOfReplaceFirst(initial, AmountPlaceholder, Styled(amount, TitleBoldFont));
    CharactersOfReplaceFirst(withAmount, NamePlaceholder, Styled(botName, TitleBoldFont));
    CharactersOfReplaceFirst(withName, TitlePlaceholder, Styled(invoiceTitle, TitleFont));
  }

  /** A template without any of the three placeholders is shown unchanged, in the regular font. */
  lemma PaymentSentWithoutPlaceholders(template: string, amount: string, botName: string, invoiceTitle: string)
    requires !Contains(template, AmountPlaceholder)
    requires !Contains(template, NamePlaceholder)
    requires !Contains(template, TitlePlaceholder)
    ensures PaymentSentText(template, amount, botName, invoiceTitle) == Styled(template, TitleFont)
  {
    CharactersStyled(template, TitleFont);
  }

  /** Replacing the first occurrence when the text before the placeholder cannot hold one. */
  lemma ReplaceAfterBraceFreePrefix(x: AttributedString, placeholder: string, y: AttributedString, replacement: AttributedString)
    requires |placeholder| > 0 && placeholder[0] == '{'
    requires '{' !in Characters(x)
    ensures ReplaceFirst(x + Styled(placeholder, TitleFont) + y, placeholder, replacement) == x + replacement + y
  {
    var a := x + Styled(placeholder, TitleFont) + y;
    var s := Characters(a);
    CharactersConcat(x + Styled(placeholder, TitleFont), y);
    CharactersConcat(x, Styled(placeholder, TitleFont));
    CharactersStyled(placeholder, TitleFont);
    assert s == Characters(x) + placeholder + Characters(y);
    assert OccursAt(s, placeholder, |x|);
    forall j | 0 <= j < |x| ensures !OccursAt(s, placeholder, j) {
      assert s[j] == Characters(x)[j];
    }
    assert FindFirst(s, placeholder) == Some(|x|);
    assert a[..|x|] == x;
    assert a[|x| + |placeholder|..] == y;
  }

  /**
   * With the placeholders in the template in the order `{amount}`, `{name}`, `{title}` and no
   * other `{` in the template or in the amount and name, the message is the template's text
   * with the amount and the bot name in bold and the invoice title in the regular font.
   */
  lemma PaymentSentInTemplateOrder(a: string, b: string, c: string, d: string, amount: string, botName: string, invoiceTitle: string)
    requires '{' !in a && '{' !in b && '{' !in c && '{' !in d && '{' !in amount && '{' !in botName
    ensures PaymentSentText(a + AmountPlaceholder + b + NamePlaceholder + c + TitlePlaceholder + d, amount, botName, invoiceTitle) ==
      Styled(a, TitleFont) + Styled(amount, TitleBoldFont) + Styled(b, TitleFont) + Styled(botName, TitleBoldFont) +
      Styled(c, TitleFont) + Styled(invoiceTitle, TitleFont) + Styled(d, TitleFont)
  {
    var R, B := TitleFont, TitleBoldFont;
    var template := a + AmountPlaceholder + b + NamePlaceholder + c + TitlePlaceholder + d;
    var rest2 := c + (TitlePlaceholder + d);
    var rest1 := b + (NamePlaceholder + rest2);
    assert template == a + (AmountPlaceholder + rest1);

    var w1 := ReplaceFirst(Styled(template, R), AmountPlaceholder, Styled(amount, B));
    var x1 := Styled(a, R) + Styled(amount, B);
    assert w1 == x1 + Styled(b, R) + Styled(NamePlaceholder + rest2, R) by {
      AmountStep(a, rest1, amount);
      StyledConcat(b, NamePlaceholder + rest2, R);
    }

    var w2 := ReplaceFirst(w1, NamePlaceholder, Styled(botName, B));
    var x2 := x1 + Styled(b, R) + Styled(botName, B);
    assert w2 == x2 + Styled(c, R) + Styled(TitlePlaceholder + d, R) by {
      NoBraceInStyled(a, amount, R, B);
      ReplaceAfterBraceFree(x1, b, NamePlaceholder, rest2, Styled(botName, B));
      StyledConcat(c, TitlePlaceholder + d, R);
    }

    var w3 := ReplaceFirst(w2, TitlePlaceholder, Styled(invoiceTitle, R));
    assert w3 == x2 + Styled(c, R) + Styled(invoiceTitle, R) + Styled(d, R) by {
      NoBraceInStyled(a, amount, R, B);
      NoBraceInStyled(b, botName, R, B);
      CharactersOfConcat3(x1, Styled(b, R), Styled(botName, B));
      CharactersConcat(Styled(b, R), Styled(botName, B));
      ReplaceAfterBraceFree(x2, c, TitlePlaceholder, d, Styled(invoiceTitle, R));
    }
    assert PaymentSentText(template, amount, botName, invoiceTitle) == w3;
  }

  /** The first replacement, of `{amount}` after a prefix without `{`. */
  lemma AmountStep(a: string, rest: string, amount: string)
    requires '{' !in a
    ensures ReplaceFirst(Styled(a + (AmountPlaceholder + rest), TitleFont), AmountPlaceholder, Styled(amount, TitleBoldFont)) ==
      Styled(a, TitleFont) + Styled(amount, TitleBoldFont) + Styled(rest, TitleFont)
  {
    StyledConcat(a, AmountPlaceholder + rest, TitleFont);
    CharactersStyled(a, TitleFont);
    ReplaceStyledPlaceholder(Styled(a, TitleFont), AmountPlaceholder, rest, Styled(amount, TitleBoldFont));
  }

  /** Two styled runs without `{` hold no `{`. */
  lemma NoBraceInStyled(s: string, t: string, f: Font, g: Font)
    requires '{' !in s && '{' !in t
    ensures '{' !in Characters(Styled(s, f) + Styled(t, g))
  {
    CharactersConcat(Styled(s, f), Styled(t, g));
    CharactersStyled(s, f);
    CharactersStyled(t, g);
  }

  /** A later replacement: the placeholder follows a prefix and a regular run, neither holding `{`. */
  lemma ReplaceAfterBraceFree(x: AttributedString, s: string, placeholder: string, rest: string, replacement: AttributedString)
    requires |placeholder| > 0 && placeholder[0] == '{'
    requires '{' !in Characters(x) && '{' !in s
    ensures ReplaceFirst(x + Styled(s, TitleFont) + Styled(placeholder + rest, TitleFont), placeholder, replacement) ==
      x + Styled(s, TitleFont) + replacement + Styled(rest, TitleFont)
  {
    CharactersConcat(x, Styled(s, TitleFont));
    CharactersStyled(s, TitleFont);
    ReplaceStyledPlaceholder(x + Styled(s, TitleFont), placeholder, rest, replacement);
  }

  lemma CharactersOfConcat3(x: AttributedString, y: AttributedString, z: AttributedString)
    ensures Characters(x + y + z) == Characters(x) + Characters(y) + Characters(z)
  {
    CharactersConcat(x + y, z);
    CharactersConcat(x, y);
  }

  /** A placeholder starting the regular-font rest, after a prefix without `{`, is the one replaced. */
  lemma ReplaceStyledPlaceholder(x: AttributedString, placeholder: string, rest: string, replacement: AttributedString)
    requires |placeholder| > 0 && placeholder[0] == '{'
    requires '{' !in Characters(x)
    ensures ReplaceFirst(x + Styled(placeholder + rest, TitleFont), placeholder, replacement) ==
            x + replacement + Styled(rest, TitleFont)
  {
    StyledConcat(placeholder, rest, TitleFont);
    assert x + Styled(placeholder + rest, TitleFont) == x + Styled(placeholder, TitleFont) + Styled(rest, TitleFont);
    ReplaceAfterBraceFreePrefix(x, placeholder, Styled(rest, TitleFont), replacement);
  }

  lemma StyledConcat(s: string, t: string, font: Font)
    ensures Styled(s + t, font) == Styled(s, font) + Styled(t, font)
  {
  }
}
