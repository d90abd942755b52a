/**
 * The end-to-end flow the repository's test suite drives over HTTP, replayed against the two
 * services: sign up, sign in, then create, list, read, edit and delete one bookmark. The caller's
 * user id is the subject read back from the session token.
 */
module Scenario {
  import opened Wrappers
  import opened Common
  import opened Credentials
  import opened Auth
  import opened Bookmarks

  method BookmarkLifecycle(hasher: PasswordHasher, signer: TokenSigner, jwtSecret: string, salt: Salt)
    returns (signedIn: Result<AccessToken, Exception>, listedFirst: seq<Bookmark>, created: Bookmark,
             fetched: Option<Bookmark>, edited: Result<Bookmark, Exception>, deleted: Outcome<Exception>,
             listedLast: seq<Bookmark>)
    requires hasher.Sound() && signer.Sound()
    ensures signedIn.Success?
    ensures listedFirst == []
    ensures created.title == "Google" && created.link == "google.com" && created.description == None
    ensures fetched == Some(created)
    ensures edited.Success? && edited.value.id == created.id
    ensures edited.value.title == "Google" && edited.value.description == Some("From Google.com's website")
    ensures deleted.Pass?
    ensures listedLast == []
  {
    var auth := new AuthService(hasher, signer, jwtSecret);
    var credentials := AuthDto("teste@teste.com", "123");
    var signedUp := auth.Signup(credentials, salt, None);
    assert signedUp.Success?;
    signedIn := auth.Signin(credentials);
    var claims := signer.verify(signedIn.value.accessToken, jwtSecret);
    var userId := claims.value.payload.sub;

    var service := new BookmarkService();
    listedFirst := service.GetBookmarks(userId);
    created := service.CreateBookmark(userId, CreateBookmarkDto("Google", "google.com", None));
    assert service.GetBookmarks(userId) == [created];
    fetched := service.GetBookmarkById(userId, created.id);
    edited := service.EditBookmarkById(userId, created.id, EditBookmarkDto(None, None, Some("From Google.com's website")));
    deleted := service.DeleteBookmarkById(userId, created.id);
    listedLast := service.GetBookmarks(userId);
  }
}
