/**
  Facts proved about the extractors on concrete inputs: what the regular
  expressions find and what they pass over.
 */
module Scenarios {
  import opened Wrappers
  import opened Contact

  /** The first address in a sentence is found, with the punctuation around it left out. */
  lemma EmailInSentence()
    ensures ExtractEmail("Contact me at " + ("jane.doe" + "@" + "example.com") + " or 987-654-3210.")
         == Some("jane.doe" + "@" + "example.com")
  {
    EmbeddedEmail("Contact me at ", "jane.doe", "example.com", " or 987-654-3210.");
  }

  /** A trailing dot belongs to the domain class, so it stays in the match. */
  lemma EmailKeepsTrailingDot()
    ensures ExtractEmail("a.b@c.io.") == Some("a.b@c.io.")
  {
    var s := "a.b@c.io.";
    assert IsFirstEmail(s, 0, 3, 9);
    assert s[0..9] == s;
    FirstEmailIsExtracted(s, 0, 3, 9);
  }

  /** A dashed number has no ten-digit run and no parenthesised area code: no phone is found. */
  lemma DashedNumberIsNotAPhone()
    ensures ExtractPhone("987-654-3210") == None
  {
    var s := "987-654-3210";
    assert '(' !in s;
    forall i, k ensures !PhoneAt(s, i, k) {
      assert s[3] == '-';
      if 0 <= i < |s| { assert s[i] in s; }
    }
  }

  /** The parenthesised form with one space is found whole. */
  lemma ParenthesisedPhone()
    ensures ExtractPhone("(123) 456-7890") == Some("(123) 456-7890")
  {
    var s := "(123) 456-7890";
    assert ParenAt(s, 0, 14);
    assert s[0..14] == s;
    FirstPhoneIsExtracted(s, 0, s);
  }
}
