/**
  The URL builder of the small REST client `PtREST`: the Rehydration endpoint
  of an account for the configured publisher.
 */
module Rest {
  import opened Wrappers

  /** The root URL of Rehydration PowerTrack. */
  const BaseUrl: string := "https://rehydration.gnip.com:443/accounts/"

  /** What `p` prints, and returns, when no account name is known. */
  const NoAccountMessage: string := "No account name set.  Can not set url."

  /** The activities endpoint of one account and publisher. */
  function RehydrationUrl(account: string, publisher: string): string {
    BaseUrl + account + "/publishers/" + publisher + "/rehydration/activities.json"
  }

  /** The text before the first '/', or all of it when there is none. */
  function UpToSlash(s: string): (r: string)
    ensures r <= s
    ensures '/' !in r
  {
    if s == [] || s[0] == '/' then [] else [s[0]] + UpToSlash(s[1..])
  }

  /** The account named in an endpoint URL: the path segment right after the root URL. */
  function AccountOf(url: string): Option<string> {
    if BaseUrl <= url then Some(UpToSlash(url[|BaseUrl|..])) else None
  }

  lemma {:induction false} UpToSlashOfSegment(a: string, rest: string)
    requires '/' !in a
    ensures UpToSlash(a + "/" + rest) == a
  {
    if a != [] {
      assert (a + "/" + rest)[1..] == a[1..] + "/" + rest;
      UpToSlashOfSegment(a[1..], rest);
    }
  }

  /**
    The URL starts with the root URL and ends with the activities path, and an
    account name without '/' is read back from it unchanged.
   */
  lemma UrlNamesAccount(account: string, publisher: string)
    requires '/' !in account
    ensures BaseUrl <= RehydrationUrl(account, publisher)
    ensures AccountOf(RehydrationUrl(account, publisher)) == Some(account)
  {
    var url := RehydrationUrl(account, publisher);
    var rest := publisher + "/rehydration/activities.json";
    assert url == BaseUrl + (account + "/publishers/" + rest);
    assert "/publishers/" + rest == "/" + ("publishers/" + rest);
    assert url[|BaseUrl|..] == account + "/" + ("publishers/" + rest);
    UpToSlashOfSegment(account, "publishers/" + rest);
  }

  /** Different accounts (without '/') give different URLs. */
  lemma UrlInjective(a: string, b: string, publisher: string)
    requires '/' !in a && '/' !in b
    requires RehydrationUrl(a, publisher) == RehydrationUrl(b, publisher)
    ensures a == b
  {
    UrlNamesAccount(a, publisher);
    UrlNamesAccount(b, publisher);
  }

  class PtRest {
    /** `@url`, which is nil until `getRehydrationURL` assigns it. */
    var url: Option<string>
    /** `@account_name` of the client itself, which is nil unless a caller sets it. */
    var accountName: Option<string>
    var publisher: string

    /**
      `PtREST.new` with no arguments, which leaves `@url` and `@account_name`
      nil, followed by the caller's `@http.publisher = @publisher`.
     */
    constructor (publisher: string)
      ensures this.publisher == publisher && accountName == None && url == None
    {
      url := None;
      accountName := None;
      this.publisher := publisher;
    }

    /**
      `getRehydrationURL(account_name)`: `@url` becomes the endpoint of the
      account passed in or, failing that, of the client's own account; with
      neither, `@url` is left at the root URL and the value returned is the
      message `p` printed. Otherwise the value returned is the new `@url`.
     */
    method GetRehydrationURL(accountName: Option<string>) returns (r: string)
      modifies this`url
      ensures accountName.Some? ==> url == Some(RehydrationUrl(accountName.value, publisher)) && r == url.value
      ensures accountName.None? && this.accountName.Some? ==>
        url == Some(RehydrationUrl(this.accountName.value, publisher)) && r == url.value
      ensures accountName.None? && this.accountName.None? ==> url == Some(BaseUrl) && r == NoAccountMessage
    {
      var root := BaseUrl;
      url := Some(root);
      if accountName.None? {
        if this.accountName.None? {
          r := NoAccountMessage;
        } else {
          r := root + this.accountName.value + "/publishers/" + publisher + "/rehydration/activities.json";
          url := Some(r);
        }
      } else {
        r := root + accountName.value + "/publishers/" + publisher + "/rehydration/activities.json";
        url := Some(r);
      }
    }
  }
}
