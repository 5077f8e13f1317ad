/** The line scanner of `ReadMyCnf` (pkg/gtids/db.go): the option-file
    contents are given as a string, the file read itself is not modelled. */
module Credentials {
  import opened Wrappers
  import opened Text

  datatype Credentials = Credentials(user: string, password: string)

  /** `user and password not found in ~/.my.cnf`. */
  datatype CredentialError = NotFound

  const UserKey := "user="
  const PasswordKey := "password="

  /** The line, trimmed, starts with `key`. */
  predicate IsSetting(line: string, key: string) {
    HasPrefix(TrimSpace(line), key)
  }

  /** The trimmed text after `key` on a setting line. */
  function SettingValue(line: string, key: string): string
    requires IsSetting(line, key)
  {
    TrimSpace(TrimSpace(line)[|key|..])
  }

  /** The value of the last line setting `key`, or "" when no line does:
      read from the end, independently of the scanning loop. */
  function LastValue(lines: seq<string>, key: string): string
  {
    if lines == [] then ""
    else if IsSetting(lines[|lines| - 1], key) then SettingValue(lines[|lines| - 1], key)
    else LastValue(lines[..|lines| - 1], key)
  }

  /** With no line setting `key`, its value is "". */
  lemma {:induction false} NoSettingNoValue(lines: seq<string>, key: string)
    requires forall i :: 0 <= i < |lines| ==> !IsSetting(lines[i], key)
    ensures LastValue(lines, key) == ""
  {
    if lines != [] {
      NoSettingNoValue(lines[..|lines| - 1], key);
    }
  }

  /** Otherwise the value is the one of the last line setting `key`: no later
      line can change it, whatever came before. */
  lemma {:induction false} LastSettingValue(lines: seq<string>, key: string, i: nat)
    requires i < |lines| && IsSetting(lines[i], key)
    requires forall j :: i < j < |lines| ==> !IsSetting(lines[j], key)
    ensures LastValue(lines, key) == SettingValue(lines[i], key)
  {
    if i < |lines| - 1 {
      var init := lines[..|lines| - 1];
      assert init[i] == lines[i];
      assert forall j :: i < j < |init| ==> init[j] == lines[j];
      LastSettingValue(init, key, i);
    }
  }

  /** Appending a line that does not set `key` keeps its value; appending
      one that does replaces the value, even by "". */
  lemma LastLineWins(lines: seq<string>, line: string, key: string)
    ensures IsSetting(line, key) ==> LastValue(lines + [line], key) == SettingValue(line, key)
    ensures !IsSetting(line, key) ==> LastValue(lines + [line], key) == LastValue(lines, key)
  {
    assert (lines + [line])[..|lines|] == lines;
  }

  /** The scanning loop of `ReadMyCnf`, for any two keys: each line is
      trimmed and examined in order, and a line setting a key overwrites that
      key's value. The final values are the last setting lines' values, as
      `LastValue` reads them from the end. */
  method ScanSettings(lines: seq<string>, userKey: string, passwordKey: string)
    returns (user: string, password: string)
    ensures user == LastValue(lines, userKey)
    ensures password == LastValue(lines, passwordKey)
  {
    user, password := "", "";
    var i := 0;
    while i < |lines|
      invariant 0 <= i <= |lines|
      invariant user == LastValue(lines[..i], userKey)
      invariant password == LastValue(lines[..i], passwordKey)
    {
      assert lines[..i + 1] == lines[..i] + [lines[i]];
      LastLineWins(lines[..i], lines[i], userKey);
      LastLineWins(lines[..i], lines[i], passwordKey);
      var line := TrimSpace(lines[i]);
      if HasPrefix(line, userKey) {
        user := TrimSpace(line[|userKey|..]);
      }
      if HasPrefix(line, passwordKey) {
        password := TrimSpace(line[|passwordKey|..]);
      }
      i := i + 1;
    }
    assert lines[..|lines|] == lines;
  }

  /** `ReadMyCnf` after the file has been read: the contents are split into
      lines; a line starting `user=` or `password=` once trimmed sets that
      value to the trimmed rest of the line, so the last such line wins even
      if its value is empty. The result is an error exactly when either final
      value is empty. */
  method ReadMyCnf(contents: string) returns (r: Result<Credentials, CredentialError>)
    ensures var lines := Split(contents, '\n');
      r.Success? <==> LastValue(lines, UserKey) != "" && LastValue(lines, PasswordKey) != ""
    ensures var lines := Split(contents, '\n');
      r.Success? ==> r.value == Credentials(LastValue(lines, UserKey), LastValue(lines, PasswordKey))
    ensures r.Failure? ==> r.error == NotFound
  {
    var lines := Split(contents, '\n');
    var user, password := ScanSettings(lines, UserKey, PasswordKey);
    if user == "" || password == "" {
      return Failure(NotFound);
    }
    return Success(Credentials(user, password));
  }

  /** No line sets both keys: a trimmed line starting `user=` does not start
      `password=`. */
  lemma SettingsAreExclusive(line: string)
    ensures !(IsSetting(line, UserKey) && IsSetting(line, PasswordKey))
  {
    var t := TrimSpace(line);
    if HasPrefix(t, UserKey) {
      assert t[0] == 'u';
    }
  }

}
