/**
 The credential loader (`read_token_file`): the contents of the token file
 with every whitespace character removed, wherever it occurs. Reading the
 file is left to the caller, which hands over its text.
 */
module Token {
  import opened Unicode
  import opened Seqs

  /** The access token carried by the text of a token file. */
  function NormaliseToken(text: string): (token: string)
    ensures All(token, IsVisible)
    ensures forall c :: c in text && !IsWhitespace(c) ==> c in token
    ensures forall c :: c in token ==> c in text
    ensures IsSubsequence(token, text)
  {
    FilterIsSubsequence(text, IsVisible);
    assert forall c :: c in Filter(text, IsVisible) <==> c in text && IsVisible(c) by {
      forall c { FilterMembership(text, IsVisible, c); }
    }
    Filter(text, IsVisible)
  }

  /**
   The token is the longest whitespace-free subsequence of the file text, and
   the only one of its length: exactly the non-whitespace characters of the
   text, each kept, in their original order.
   */
  lemma TokenIsLongestVisibleSubsequence(text: string, t: string)
    requires IsSubsequence(t, text)
    requires All(t, IsVisible)
    ensures |t| <= |NormaliseToken(text)|
    ensures |t| == |NormaliseToken(text)| ==> t == NormaliseToken(text)
  {
    FilterIsLongest(text, IsVisible, t);
    if |t| == |NormaliseToken(text)| {
      FilterIsUnique(text, IsVisible, t);
    }
  }

  /** Text without whitespace is its own token, and only such text is. */
  lemma NormaliseFixedPoint(text: string)
    ensures NormaliseToken(text) == text <==> All(text, IsVisible)
  {
    FilterFixedPoint(text, IsVisible);
  }

  /** Normalising a token a second time changes nothing. */
  lemma NormaliseIdempotent(text: string)
    ensures NormaliseToken(NormaliseToken(text)) == NormaliseToken(text)
  {
    FilterIdempotent(text, IsVisible);
  }

  /**
   Whitespace is removed independently of where the text is cut: a token
   spread over several lines of the file normalises to the concatenation of
   the normalised pieces.
   */
  lemma NormaliseAppend(a: string, b: string)
    ensures NormaliseToken(a + b) == NormaliseToken(a) + NormaliseToken(b)
  {
    FilterAppend(a, b, IsVisible);
  }
}
