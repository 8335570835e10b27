/**
 * DomainErrorTranslator: the boundary lookup from an error's code (its
 * message) to a user-facing InvariantError. Codes that are not in the
 * directory pass through as the same error.
 *
 * The directory is written as the union of its four sections (users and
 * authentication, threads, comments, replies); no code appears in two
 * sections, so the union is the single table the source declares.
 */
module DomainErrorTranslator {
  import opened Errors

  /** The codes about user registration, login and token refresh. */
  const UserAndAuthenticationCodes: map<string, string> :=
    map[
      "REGISTER_USER.NOT_CONTAIN_NEEDED_PROPERTY" := "tidak dapat membuat user baru karena properti yang dibutuhkan tidak ada",
      "REGISTER_USER.NOT_MEET_DATA_TYPE_SPECIFICATION" := "tidak dapat membuat user baru karena tipe data tidak sesuai",
      "REGISTER_USER.USERNAME_LIMIT_CHAR" := "tidak dapat membuat user baru karena karakter username melebihi batas limit",
      "REGISTER_USER.USERNAME_CONTAIN_RESTRICTED_CHARACTER" := "tidak dapat membuat user baru karena username mengandung karakter terlarang",
      "USER_LOGIN.NOT_CONTAIN_NEEDED_PROPERTY" := "harus mengirimkan username dan password",
      "USER_LOGIN.NOT_MEET_DATA_TYPE_SPECIFICATION" := "username dan password harus string",
      "REFRESH_AUTHENTICATION_USE_CASE.NOT_CONTAIN_REFRESH_TOKEN" := "harus mengirimkan token refresh",
      "REFRESH_AUTHENTICATION_USE_CASE.PAYLOAD_NOT_MEET_DATA_TYPE_SPECIFICATION" := "refresh token harus string",
      "DELETE_AUTHENTICATION_USE_CASE.NOT_CONTAIN_REFRESH_TOKEN" := "harus mengirimkan token refresh",
      "DELETE_AUTHENTICATION_USE_CASE.PAYLOAD_NOT_MEET_DATA_TYPE_SPECIFICATION" := "refresh token harus string"
    ]

  /** The codes about threads. */
  const ThreadCodes: map<string, string> :=
    map[
      "ADD_THREAD.NOT_CONTAIN_NEEDED_PROPERTY" := "tidak dapat membuat thread baru karena properti yang dibutuhkan tidak ada",
      "ADD_THREAD.NOT_MEET_DATA_TYPE_SPECIFICATION" := "tidak dapat membuat thread baru karena tipe data tidak sesuai",
      "ADD_THREAD.TITLE_LIMIT_CHAR" := "tidak dapat membuat thread baru karena karakter title melebihi batas limit",
      "ADDED_THREAD.NOT_CONTAIN_NEEDED_PROPERTY" := "harus mengirimkan id, owner, dan title",
      "ADDED_THREAD.TITLE_LIMIT_CHAR" := "tidak dapat menghasilkan thread baru karena karakter title melebihi batas limit",
      "ADDED_THREAD.NOT_MEET_DATA_TYPE_SPECIFICATION" := "id, owner, dan title harus string",
      "THREAD_DETAIL.NOT_CONTAIN_NEEDED_PROPERTY" := "harus mengirimkan id, title, body, date, username dan comments",
      "THREAD_DETAIL.NOT_MEET_DATA_TYPE_SPECIFICATION" := "id, title, body, date, dan username harus string, lalu comments harus array of ThreadComment"
    ]

  /** The codes about comments. */
  const CommentCodes: map<string, string> :=
    map[
      "ADD_COMMENT.NOT_CONTAIN_NEEDED_PROPERTY" := "tidak dapat membuat comment baru karena properti yang dibutuhkan tidak ada",
      "ADD_COMMENT.NOT_MEET_DATA_TYPE_SPECIFICATION" := "tidak dapat membuat comment baru karena tipe data tidak sesuai",
      "ADDED_COMMENT.NOT_CONTAIN_NEEDED_PROPERTY" := "harus mengirimkan id, owner, dan content",
      "ADDED_COMMENT.NOT_MEET_DATA_TYPE_SPECIFICATION" := "id, owner, dan content harus string",
      "COMMENT_DETAIL.NOT_CONTAIN_NEEDED_PROPERTY" := "harus mengirimkan id, username, date, dan content",
      "COMMENT_DETAIL.NOT_MEET_DATA_TYPE_SPECIFICATION" := "id, username, date, dan content harus string",
      "GET_THREAD_DETAIL_USE_CASE.NOT_CONTAIN_THREAD_ID" := "harus mengirimkan parameter threadId"
    ]

  /** The codes about replies. */
  const ReplyCodes: map<string, string> :=
    map[
      "ADD_REPLY.NOT_CONTAIN_NEEDED_PROPERTY" := "tidak dapat membuat reply baru karena properti yang dibutuhkan tidak ada",
      "ADD_REPLY.NOT_MEET_DATA_TYPE_SPECIFICATION" := "tidak dapat membuat reply baru karena tipe data tidak sesuai",
      "ADDED_REPLY.NOT_CONTAIN_NEEDED_PROPERTY" := "tidak dapat membuat reply baru karena properti yang dibutuhkan tidak ada",
      "ADDED_REPLY.NOT_MEET_DATA_TYPE_SPECIFICATION" := "tidak dapat membuat reply baru karena tipe data tidak sesuai",
      "DETAIL_REPLY.NOT_CONTAIN_NEEDED_PROPERTY" := "harus mengirimkan id, username, date, dan content",
      "DETAIL_REPLY.NOT_MEET_DATA_TYPE_SPECIFICATION" := "id, username, date, dan content harus string"
    ]

  /** The directory: error code to the message of the InvariantError it becomes. */
  const Directories: map<string, string> :=
    UserAndAuthenticationCodes + ThreadCodes + CommentCodes + ReplyCodes

  /**
   * `_directories[error.message] || error` (every directory entry is an
   * object, hence truthy). Only the directory's own keys are looked up.
   */
  function Translate(e: DomainError): (r: DomainError)
    ensures r == e <==> e.message !in Directories
    ensures r != e ==> r.InvariantError? && r.message in Directories.Values && r.message !in Directories
  {
    MessagesAreNotCodes();
    if e.message in Directories then InvariantError(Directories[e.message]) else e
  }

  /** For directory codes, the translation depends on the message only, not on the error's class. */
  lemma TranslationDependsOnMessage(e1: DomainError, e2: DomainError)
    requires e1.message == e2.message && e1.message in Directories
    ensures Translate(e1) == Translate(e2)
  {
  }

  /** The comment-creation presence failure reaches the client as this sentence. */
  lemma AddCommentMissingPropertyMessage()
    ensures Translate(PlainError("ADD_COMMENT.NOT_CONTAIN_NEEDED_PROPERTY"))
         == InvariantError("tidak dapat membuat comment baru karena properti yang dibutuhkan tidak ada")
  {
    var code := "ADD_COMMENT.NOT_CONTAIN_NEEDED_PROPERTY";
    assert code in CommentCodes && code !in ReplyCodes;
    assert Directories[code] == CommentCodes[code];
  }

  const RefreshCode: string := "REFRESH_AUTHENTICATION_USE_CASE.NOT_CONTAIN_REFRESH_TOKEN"
  const DeleteRefreshCode: string := "DELETE_AUTHENTICATION_USE_CASE.NOT_CONTAIN_REFRESH_TOKEN"

  lemma RefreshCodesDiffer()
    ensures RefreshCode != DeleteRefreshCode
  {
    assert |RefreshCode| != |DeleteRefreshCode|;
  }

  lemma RefreshCodesShareMessage()
    ensures RefreshCode in UserAndAuthenticationCodes && DeleteRefreshCode in UserAndAuthenticationCodes
    ensures UserAndAuthenticationCodes[RefreshCode] == UserAndAuthenticationCodes[DeleteRefreshCode]
  {
  }

  lemma RefreshCodesNotThread() ensures {RefreshCode, DeleteRefreshCode} !! ThreadCodes.Keys { }
  lemma RefreshCodesNotComment() ensures {RefreshCode, DeleteRefreshCode} !! CommentCodes.Keys { }
  lemma RefreshCodesNotReply() ensures {RefreshCode, DeleteRefreshCode} !! ReplyCodes.Keys { }

  /** Looking up a key that only the left operand of a union holds. */
  lemma LookupLeft(a: map<string, string>, b: map<string, string>, k: string)
    requires k in a && k !in b
    ensures k in a + b && (a + b)[k] == a[k]
  {
  }

  /** The translation is not injective: two refresh-token codes share one message. */
  lemma NotInjective()
    ensures exists a, b | a in Directories && b in Directories :: a != b && Directories[a] == Directories[b]
  {
    RefreshCodesDiffer();
    RefreshCodesShareMessage();
    RefreshCodesNotThread();
    RefreshCodesNotComment();
    RefreshCodesNotReply();
    var first := UserAndAuthenticationCodes;
    forall k | k in {RefreshCode, DeleteRefreshCode}
      ensures k in Directories && Directories[k] == first[k]
    {
      LookupLeft(first, ThreadCodes, k);
      LookupLeft(first + ThreadCodes, CommentCodes, k);
      LookupLeft(first + ThreadCodes + CommentCodes, ReplyCodes, k);
    }
    assert Directories[RefreshCode] == Directories[DeleteRefreshCode];
  }

  /** Codes end with an upper-case letter. */
  predicate IsCode(s: string) { |s| > 0 && 'A' <= s[|s| - 1] <= 'Z' }

  /** User-facing messages end with a lower-case letter. */
  predicate IsSentence(s: string) { |s| > 0 && 'a' <= s[|s| - 1] <= 'z' }

  /** Every key of a section is a code and every message a sentence. */
  predicate WellFormed(section: map<string, string>) {
    forall k | k in section :: IsCode(k) && IsSentence(section[k])
  }

  lemma UnionWellFormed(a: map<string, string>, b: map<string, string>)
    requires WellFormed(a) && WellFormed(b)
    ensures WellFormed(a + b)
  {
  }

  lemma UserAndAuthenticationCodesWellFormed() ensures WellFormed(UserAndAuthenticationCodes) { }
  lemma ThreadCodesWellFormed() ensures WellFormed(ThreadCodes) { }
  lemma CommentCodesWellFormed() ensures WellFormed(CommentCodes) { }
  lemma ReplyCodesWellFormed() ensures WellFormed(ReplyCodes) { }

  lemma DirectoriesWellFormed()
    ensures WellFormed(Directories)
  {
    UserAndAuthenticationCodesWellFormed();
    ThreadCodesWellFormed();
    CommentCodesWellFormed();
    ReplyCodesWellFormed();
    UnionWellFormed(UserAndAuthenticationCodes, ThreadCodes);
    UnionWellFormed(UserAndAuthenticationCodes + ThreadCodes, CommentCodes);
    UnionWellFormed(UserAndAuthenticationCodes + ThreadCodes + CommentCodes, ReplyCodes);
  }

  /** No translated message is itself a code of the directory. */
  lemma MessagesAreNotCodes()
    ensures forall k | k in Directories :: Directories[k] !in Directories
  {
    DirectoriesWellFormed();
  }

  /** Translating twice is translating once. */
  lemma TranslateIdempotent(e: DomainError)
    ensures Translate(Translate(e)) == Translate(e)
  {
    if e.message in Directories {
      MessagesAreNotCodes();
      assert Translate(e).message == Directories[e.message];
    }
  }

  /** The parameter-check codes the use cases throw. */
  const UseCaseParameterCodes: set<string> := {
    "ADD_THREAD_USE_CASE.NOT_CONTAIN_NEEDED_PARAMETER",
    "ADD_THREAD_USE_CASE.PARAMETER_NOT_MEET_DATA_TYPE_SPECIFICATION",
    "GET_THREAD_USE_CASE.NOT_CONTAIN_NEEDED_PARAMETER",
    "GET_THREAD_USE_CASE.PARAMETER_NOT_MEET_DATA_TYPE_SPECIFICATION",
    "ADD_COMMENT_USE_CASE.NOT_CONTAIN_NEEDED_PARAMETER",
    "ADD_COMMENT_USE_CASE.PARAMETER_NOT_MEET_DATA_TYPE_SPECIFICATION",
    "DELETE_COMMENT_USE_CASE.NOT_CONTAIN_NEEDED_PARAMETER",
    "DELETE_COMMENT_USE_CASE.PARAMETER_NOT_MEET_DATA_TYPE_SPECIFICATION",
    "ADD_REPLY_USE_CASE.NOT_CONTAIN_NEEDED_PARAMETER",
    "ADD_REPLY_USE_CASE.PARAMETER_NOT_MEET_DATA_TYPE_SPECIFICATION",
    "DELETE_REPLY_USE_CASE.NOT_CONTAIN_NEEDED_PARAMETER",
    "DELETE_REPLY_USE_CASE.PARAMETER_NOT_MEET_DATA_TYPE_SPECIFICATION"
  }

  lemma ParameterCodesNotUserAndAuthentication() ensures UseCaseParameterCodes !! UserAndAuthenticationCodes.Keys { }
  lemma ParameterCodesNotThread() ensures UseCaseParameterCodes !! ThreadCodes.Keys { }
  lemma ParameterCodesNotComment() ensures UseCaseParameterCodes !! CommentCodes.Keys { }
  lemma ParameterCodesNotReply() ensures UseCaseParameterCodes !! ReplyCodes.Keys { }

  /** None of those codes is in the directory, so they reach the client untranslated. */
  lemma UseCaseParameterCodesPassThrough(e: DomainError)
    requires e.message in UseCaseParameterCodes
    ensures Translate(e) == e
  {
    ParameterCodesNotUserAndAuthentication();
    ParameterCodesNotThread();
    ParameterCodesNotComment();
    ParameterCodesNotReply();
  }
}
