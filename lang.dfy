/** Java-level vocabulary shared by every module: nullable values, the exceptions the
    blog backend throws or lets through, and the few String operations it relies on. */
module Lang {

  /** A Java reference that may be null, or an `Optional`. */
  datatype Option<+T> = None | Some(value: T)

  /** The exceptions of the modelled code, by their Java class (and message, where the
      code builds one). */
  datatype Exception =
    | RuntimeException(message: string)
    | IllegalArgumentException(message: string)
    | IllegalStateException(message: string)
    | NoSuchElementException
    | IOException(message: string)
      // an unchecked exception thrown by the image storage client
    | StorageRuntimeException
      // a unique index of the document store rejected a write
    | DuplicateKeyException
      // jjwt: the token's `exp` claim lies in the past
    | ExpiredJwtException
      // jjwt: any other JwtException that the code does not catch (e.g. a DecodingException)
    | OtherJwtException
      // jjwt: the HMAC key is shorter than 256 bits
    | WeakKeyException
    | UsernameNotFoundException(message: string)
    | BadCredentialsException
    | InternalAuthenticationServiceException
    | TokenRefreshException(token: string, message: string)
    | ResourceNotFoundException(message: string)
    | UserNotFoundException(message: string)

  /** The outcome of a Java call: a value, or the exception it throws. */
  datatype Result<+T> = Ok(value: T) | Throws(exception: Exception) {
    predicate IsFailure() { Throws? }

    function PropagateFailure<U>(): Result<U>
      requires Throws?
    {
      Throws(exception)
    }

    function Extract(): T
      requires Ok?
    {
      value
    }
  }

  /** `String.startsWith`. */
  predicate StartsWith(s: string, prefix: string) {
    |prefix| <= |s| && s[..|prefix|] == prefix
  }

  /** `Character.toUpperCase`, restricted to ASCII letters. */
  function Upper(c: char): char {
    if 'a' <= c <= 'z' then (c as int - 32) as char else c
  }

  /** `Character.toLowerCase`, restricted to ASCII letters. */
  function Lower(c: char): char {
    if 'A' <= c <= 'Z' then (c as int + 32) as char else c
  }

  /** The per-character test of `String.equalsIgnoreCase` (`String.regionMatches`). */
  predicate CharsEqualIgnoreCase(a: char, b: char) {
    a == b || Upper(a) == Upper(b) || Lower(Upper(a)) == Lower(Upper(b))
  }

  /** `a.equalsIgnoreCase(b)` for a non-null `b`. */
  predicate EqualsIgnoreCase(a: string, b: string) {
    |a| == |b| && forall i :: 0 <= i < |a| ==> CharsEqualIgnoreCase(a[i], b[i])
  }

  /** An independent reference for the comparison: lower-case both strings. */
  function LowerCase(s: string): (r: string)
    ensures |r| == |s|
    ensures forall i :: 0 <= i < |s| ==> r[i] == Lower(s[i])
  {
    if s == [] then [] else [Lower(s[0])] + LowerCase(s[1..])
  }

  /** Ignoring case is the same as comparing the lower-cased strings. */
  lemma EqualsIgnoreCaseIsLowerCaseEquality(a: string, b: string)
    ensures EqualsIgnoreCase(a, b) <==> LowerCase(a) == LowerCase(b)
  {
    if EqualsIgnoreCase(a, b) {
      forall i | 0 <= i < |a|
        ensures LowerCase(a)[i] == LowerCase(b)[i]
      {
        assert CharsEqualIgnoreCase(a[i], b[i]);
      }
    }
    if LowerCase(a) == LowerCase(b) {
      forall i | 0 <= i < |a|
        ensures CharsEqualIgnoreCase(a[i], b[i])
      {
        assert LowerCase(a)[i] == LowerCase(b)[i];
      }
    }
  }

  /** The comparison is an equivalence: reflexive, symmetric and transitive. */
  lemma EqualsIgnoreCaseIsEquivalence(a: string, b: string, c: string)
    ensures EqualsIgnoreCase(a, a)
    ensures EqualsIgnoreCase(a, b) ==> EqualsIgnoreCase(b, a)
    ensures EqualsIgnoreCase(a, b) && EqualsIgnoreCase(b, c) ==> EqualsIgnoreCase(a, c)
  {
    EqualsIgnoreCaseIsLowerCaseEquality(a, a);
    EqualsIgnoreCaseIsLowerCaseEquality(a, b);
    EqualsIgnoreCaseIsLowerCaseEquality(b, a);
    EqualsIgnoreCaseIsLowerCaseEquality(b, c);
    EqualsIgnoreCaseIsLowerCaseEquality(a, c);
  }
}
