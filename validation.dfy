/**
  Field validators of the management page's forms. Each validator takes the
  field's text and returns `None` when the value is acceptable (JavaScript
  `undefined`) or `Some(message)` naming the first rule the value breaks; the
  rules are tried in a fixed order and the first failure is reported. An empty
  value is never reported by the three shape validators: emptiness is the
  business of `ValidateRequired`.
*/
module Validation {
  import opened Js

  const UsernameTooShort: string := "사용자명은 3자 이상이어야 합니다"
  const UsernameBadChars: string := "영문, 숫자, 언더스코어만 사용 가능합니다"
  const UsernameTooLong: string := "사용자명은 20자 이하여야 합니다"
  const UsernameReserved: string := "예약된 사용자명입니다"

  const EmailBadFormat: string := "올바른 이메일 형식이 아닙니다"
  const EmailBadDomain: string := "회사 이메일(@company.com 또는 @example.com)만 사용 가능합니다"

  const TitleTooShort: string := "제목은 5자 이상이어야 합니다"
  const TitleTooLong: string := "제목은 100자 이하여야 합니다"
  const TitleBanned: string := "제목에 금지된 단어가 포함되어 있습니다"

  const RequiredSuffix: string := "을(를) 입력해주세요"

  const ReservedWords: seq<string> := ["admin", "root", "system", "administrator"]
  const BannedWords: seq<string> := ["광고", "스팸", "홍보"]

  // ---------------------------------------------------------------------
  // Username
  // ---------------------------------------------------------------------

  predicate IsWordChar(c: char) {
    ('a' <= c <= 'z') || ('A' <= c <= 'Z') || ('0' <= c <= '9') || c == '_'
  }

  /** `/^[a-zA-Z0-9_]+$/.test(s)` */
  predicate MatchesWordPattern(s: string) {
    |s| >= 1 && forall k :: 0 <= k < |s| ==> IsWordChar(s[k])
  }

  /** The lower-cased value is one of the reserved words (an exact match, not a substring). */
  predicate IsReserved(s: string) {
    Lower(s) in ReservedWords
  }

  /** The rules are tried in order and the first broken one is reported; an empty value passes. */
  function ValidateUsername(value: string): (r: Option<string>)
    ensures value == "" ==> r == None
    ensures r.Some? ==> r.value in {UsernameTooShort, UsernameBadChars, UsernameTooLong, UsernameReserved}
  {
    if value == "" then None
    else if Utf16Length(value) < 3 then Some(UsernameTooShort)
    else if !MatchesWordPattern(value) then Some(UsernameBadChars)
    else if Utf16Length(value) > 20 then Some(UsernameTooLong)
    else if IsReserved(value) then Some(UsernameReserved)
    else None
  }

  /** A username made of `[a-zA-Z0-9_]` is ASCII, so its JavaScript length is its number of characters. */
  lemma {:induction false} WordCharsAreSingleUnits(s: string)
    requires MatchesWordPattern(s)
    ensures Utf16Length(s) == |s|
  {
    assert forall i :: 0 <= i < |s| ==> s[i] as int <= 0xFFFF by {
      forall i | 0 <= i < |s| ensures s[i] as int <= 0xFFFF {
        assert IsWordChar(s[i]);
      }
    }
  }

  /** A non-empty username is accepted exactly when all four rules pass. */
  lemma UsernameAcceptedIff(value: string)
    ensures ValidateUsername(value) == None <==>
      value == "" ||
      (3 <= |value| <= 20 && MatchesWordPattern(value) && !IsReserved(value))
  {
    if MatchesWordPattern(value) {
      WordCharsAreSingleUnits(value);
    }
  }

  /** Each message is reported exactly when its rule fails and every earlier rule passed. */
  lemma UsernameFirstFailingRule(value: string)
    ensures ValidateUsername(value) == Some(UsernameTooShort) <==>
      value != "" && Utf16Length(value) < 3
    ensures ValidateUsername(value) == Some(UsernameBadChars) <==>
      Utf16Length(value) >= 3 && !MatchesWordPattern(value)
    ensures ValidateUsername(value) == Some(UsernameTooLong) <==>
      MatchesWordPattern(value) && |value| > 20
    ensures ValidateUsername(value) == Some(UsernameReserved) <==>
      MatchesWordPattern(value) && 3 <= |value| <= 20 && IsReserved(value)
  {
    if MatchesWordPattern(value) {
      WordCharsAreSingleUnits(value);
    }
    UsernameMessagesDistinct();
  }

  lemma UsernameMessagesDistinct()
    ensures UsernameTooShort != UsernameBadChars && UsernameTooShort != UsernameTooLong
    ensures UsernameTooShort != UsernameReserved && UsernameBadChars != UsernameTooLong
    ensures UsernameBadChars != UsernameReserved && UsernameTooLong != UsernameReserved
  {
    assert UsernameTooShort[0] == '사' && UsernameTooShort[6] == '3';
    assert UsernameTooLong[0] == '사' && UsernameTooLong[6] == '2';
    assert UsernameBadChars[0] == '영';
    assert UsernameReserved[0] == '예';
  }

  /** The reserved-word rule ignores case: an upper-case reserved word is refused. */
  lemma ReservedIgnoresCase()
    ensures ValidateUsername("ADMIN") == Some(UsernameReserved)
    ensures ValidateUsername("Root") == Some(UsernameReserved)
  {
    assert MatchesWordPattern("ADMIN");
    WordCharsAreSingleUnits("ADMIN");
    assert Lower("ADMIN") == "admin";
    assert MatchesWordPattern("Root");
    WordCharsAreSingleUnits("Root");
    assert Lower("Root") == "root";
  }

  /** The reserved-word rule is an exact match: a name that merely contains a reserved word passes. */
  lemma ReservedIsNotSubstring()
    ensures ValidateUsername("admin_kim") == None
  {
    assert MatchesWordPattern("admin_kim");
    WordCharsAreSingleUnits("admin_kim");
    assert |Lower("admin_kim")| == 9;
    assert !IsReserved("admin_kim");
  }

  // ---------------------------------------------------------------------
  // Email
  // ---------------------------------------------------------------------

  predicate IsEmailChar(c: char) {
    !IsWhitespace(c) && c != '@'
  }

  /** `s` splits as local `@` host `.` tld around the '@' at `i` and the '.' at `j`,
      each part non-empty and free of whitespace and '@'. */
  predicate EmailSplitAt(s: string, i: int, j: int) {
    && 1 <= i && i + 2 <= j && j + 2 <= |s|
    && s[i] == '@' && s[j] == '.'
    && forall k :: 0 <= k < |s| && k != i ==> IsEmailChar(s[k])
  }

  /** `/^[^\s@]+@[^\s@]+\.[^\s@]+$/.test(s)` */
  predicate MatchesEmailPattern(s: string) {
    exists i, j | 0 <= i < j < |s| :: EmailSplitAt(s, i, j)
  }

  /** The domain part contains a '.' that is neither its first nor its last character. */
  ghost predicate HasInnerDot(domain: string) {
    exists k :: 0 < k < |domain| - 1 && domain[k] == '.'
  }

  /** The shape the pattern describes, in words: no whitespace, exactly one '@',
      a non-empty local part, and a dot inside the domain. */
  ghost predicate WellFormedEmail(s: string) {
    && (forall k :: 0 <= k < |s| ==> !IsWhitespace(s[k]))
    && exists i :: 0 < i < |s| && s[i] == '@' &&
         (forall k :: 0 <= k < |s| && k != i ==> s[k] != '@') &&
         HasInnerDot(s[i + 1..])
  }

  lemma EmailPatternIff(s: string)
    ensures MatchesEmailPattern(s) <==> WellFormedEmail(s)
  {
    if MatchesEmailPattern(s) {
      var i, j :| 0 <= i < j < |s| && EmailSplitAt(s, i, j);
      assert s[i + 1..][j - i - 1] == '.';
      assert HasInnerDot(s[i + 1..]);
    }
    if WellFormedEmail(s) {
      var i :| 0 < i < |s| && s[i] == '@' &&
         (forall k :: 0 <= k < |s| && k != i ==> s[k] != '@') &&
         HasInnerDot(s[i + 1..]);
      var k :| 0 < k < |s[i + 1..]| - 1 && s[i + 1..][k] == '.';
      assert EmailSplitAt(s, i, i + 1 + k);
    }
  }

  /** The value ends in one of the two company domains. */
  predicate HasCompanyDomain(s: string) {
    EndsWith(s, "@company.com") || EndsWith(s, "@example.com")
  }

  /** The format is checked before the domain; an empty value passes. */
  function ValidateEmail(value: string): (r: Option<string>)
    ensures value == "" ==> r == None
    ensures r.Some? ==> r.value in {EmailBadFormat, EmailBadDomain}
  {
    if value == "" then None
    else if !MatchesEmailPattern(value) then Some(EmailBadFormat)
    else if !HasCompanyDomain(value) then Some(EmailBadDomain)
    else None
  }

  /** A non-empty email is accepted exactly when it is well formed and on a company domain. */
  lemma EmailAcceptedIff(value: string)
    ensures ValidateEmail(value) == None <==>
      value == "" || (WellFormedEmail(value) && HasCompanyDomain(value))
  {
    EmailPatternIff(value);
  }

  /** The domain error is reported only for a well-formed address outside the company domains. */
  lemma EmailDomainErrorIff(value: string)
    ensures ValidateEmail(value) == Some(EmailBadDomain) <==>
      WellFormedEmail(value) && !HasCompanyDomain(value)
    ensures ValidateEmail(value) == Some(EmailBadFormat) <==>
      value != "" && !WellFormedEmail(value)
  {
    EmailPatternIff(value);
    assert |EmailBadFormat| != |EmailBadDomain|;
  }

  /** An address on another domain is well formed but still refused. */
  lemma ForeignDomainRefused()
    ensures ValidateEmail("kim@gmail.com") == Some(EmailBadDomain)
  {
    assert EmailSplitAt("kim@gmail.com", 3, 9);
    assert !EndsWith("kim@gmail.com", "@company.com");
    assert !EndsWith("kim@gmail.com", "@example.com");
  }

  // ---------------------------------------------------------------------
  // Post title
  // ---------------------------------------------------------------------

  /** `BANNED_WORDS.some(word => value.includes(word))` */
  predicate HasBannedWord(s: string) {
    exists w | w in BannedWords :: Contains(s, w)
  }

  /** Too short, then too long, then a banned word; an empty value passes. */
  function ValidatePostTitle(value: string): (r: Option<string>)
    ensures value == "" ==> r == None
    ensures r.Some? ==> r.value in {TitleTooShort, TitleTooLong, TitleBanned}
  {
    if value == "" then None
    else if Utf16Length(value) < 5 then Some(TitleTooShort)
    else if Utf16Length(value) > 100 then Some(TitleTooLong)
    else if HasBannedWord(value) then Some(TitleBanned)
    else None
  }

  /** An accepted non-empty title has 5 to 100 UTF-16 units and no banned word at any position;
      every title meeting both is accepted. */
  lemma PostTitleAcceptedIff(value: string)
    ensures ValidatePostTitle(value) == None <==>
      value == "" ||
      (5 <= Utf16Length(value) <= 100 &&
       forall w, i :: w in BannedWords ==> !OccursAt(value, w, i))
  {
    forall w | w in BannedWords {
      ContainsIff(value, w);
    }
  }

  /** The banned-word error is reported only for a title whose length is within bounds. */
  lemma PostTitleBannedAfterLength(value: string)
    ensures ValidatePostTitle(value) == Some(TitleBanned) <==>
      5 <= Utf16Length(value) <= 100 && HasBannedWord(value)
  {
    assert TitleBanned[2] == '에' && TitleTooShort[2] == '은' && TitleTooLong[2] == '은';
  }

  /** The length rules come first, shortness before length: each length message is reported
      exactly when its own bound is broken. */
  lemma PostTitleFirstFailingRule(value: string)
    ensures ValidatePostTitle(value) == Some(TitleTooShort) <==> value != "" && Utf16Length(value) < 5
    ensures ValidatePostTitle(value) == Some(TitleTooLong) <==> Utf16Length(value) > 100
  {
    assert TitleTooShort[4] == '5' && TitleTooLong[4] == '1';
    assert TitleBanned[2] == '에' && TitleTooShort[2] == '은' && TitleTooLong[2] == '은';
  }

  // ---------------------------------------------------------------------
  // Required field
  // ---------------------------------------------------------------------

  /** An error exactly when the value is empty or all whitespace; the message names the field. */
  function ValidateRequired(value: string, fieldName: string): (r: Option<string>)
    ensures r.Some? <==> AllWhitespace(value)
    ensures r.Some? ==> StartsWith(r.value, fieldName) && Contains(r.value, fieldName)
  {
    TrimEmptyIff(value);
    if value == "" || Trim(value) == "" then Some(fieldName + RequiredSuffix) else None
  }
}
