/**
 * The domain error translator: a fixed directory from the message of an
 * internal `Error` to the user-facing error that replaces it. An error
 * whose message is not in the directory is returned as it is.
 */
module ErrorTranslator {
  import opened Signals

  /** The classes of user-facing error: InvariantError, NotFoundError, AuthorizationError. */
  datatype Category = Invariant | NotFound | Authorization

  /** A plain `Error` raised by the domain, or a user-facing error of some category. */
  datatype DomainError =
    | Raised(message: string)
    | Client(category: Category, message: string)

  // The user-facing messages.
  const UserMissingProperty := "tidak dapat membuat user baru karena properti yang dibutuhkan tidak ada"
  const UserWrongType := "tidak dapat membuat user baru karena tipe data tidak sesuai"
  const UsernameTooLong := "tidak dapat membuat user baru karena karakter username melebihi batas limit"
  const UsernameRestricted := "tidak dapat membuat user baru karena username mengandung karakter terlarang"
  const ThreadMissingProperty := "tidak dapat membuat thread baru karena properti yang dibutuhkan tidak ada"
  const ThreadWrongType := "tidak dapat membuat thread baru karena tipe data tidak sesuai"
  const CommentMissingProperty := "tidak dapat membuat komentar karena properti yang dibutuhkan tidak ada"
  const CommentWrongType := "tidak dapat membuat komentar karena tipe data tidak sesuai"
  const ThreadNotFoundMessage := "thread tidak ditemukan"
  const CommentNotFoundMessage := "komentar tidak ditemukan"
  const NotOwnerMessage := "Anda tidak berhak menghapus komentar ini"
  const DeletionMissingProperty := "tidak dapat menghapus komentar karena properti yang dibutuhkan tidak ada"
  const DeletionWrongType := "tidak dapat menghapus komentar karena tipe data tidak sesuai"
  const LoginMissingProperty := "harus mengirimkan username dan password"
  const LoginWrongType := "username dan password harus string"
  const RefreshTokenMissing := "harus mengirimkan token refresh"
  const RefreshTokenWrongType := "refresh token harus string"

  /** The `_directories` table. */
  const Directories: map<string, DomainError> := map[
    "REGISTER_USER.NOT_CONTAIN_NEEDED_PROPERTY" := Client(Invariant, UserMissingProperty),
    "REGISTER_USER.NOT_MEET_DATA_TYPE_SPECIFICATION" := Client(Invariant, UserWrongType),
    "REGISTER_USER.USERNAME_LIMIT_CHAR" := Client(Invariant, UsernameTooLong),
    "REGISTER_USER.USERNAME_CONTAIN_RESTRICTED_CHARACTER" := Client(Invariant, UsernameRestricted),
    AddThreadMissingProperty := Client(Invariant, ThreadMissingProperty),
    AddThreadWrongType := Client(Invariant, ThreadWrongType),
    AddCommentMissingProperty := Client(Invariant, CommentMissingProperty),
    AddCommentWrongType := Client(Invariant, CommentWrongType),
    ThreadNotFound := Client(NotFound, ThreadNotFoundMessage),
    CommentNotFound := Client(NotFound, CommentNotFoundMessage),
    NotOwner := Client(Authorization, NotOwnerMessage),
    DeleteCommentMissingProperty := Client(Invariant, DeletionMissingProperty),
    DeleteCommentWrongType := Client(Invariant, DeletionWrongType),
    "USER_LOGIN.NOT_CONTAIN_NEEDED_PROPERTY" := Client(Invariant, LoginMissingProperty),
    "USER_LOGIN.NOT_MEET_DATA_TYPE_SPECIFICATION" := Client(Invariant, LoginWrongType),
    "REFRESH_AUTHENTICATION_USE_CASE.NOT_CONTAIN_REFRESH_TOKEN" := Client(Invariant, RefreshTokenMissing),
    "REFRESH_AUTHENTICATION_USE_CASE.PAYLOAD_NOT_MEET_DATA_TYPE_SPECIFICATION" :=
      Client(Invariant, RefreshTokenWrongType),
    "DELETE_AUTHENTICATION_USE_CASE.NOT_CONTAIN_REFRESH_TOKEN" := Client(Invariant, RefreshTokenMissing),
    "DELETE_AUTHENTICATION_USE_CASE.PAYLOAD_NOT_MEET_DATA_TYPE_SPECIFICATION" :=
      Client(Invariant, RefreshTokenWrongType)
  ]

  // The messages in four groups, each small enough to check against every key at once.
  const RegistrationMessages: set<string> := {UserMissingProperty, UserWrongType, UsernameTooLong, UsernameRestricted}
  const CreationMessages: set<string> := {ThreadMissingProperty, ThreadWrongType, CommentMissingProperty, CommentWrongType}
  const DeletionMessages: set<string> := {
    ThreadNotFoundMessage, CommentNotFoundMessage, NotOwnerMessage, DeletionMissingProperty, DeletionWrongType}
  const AuthenticationMessages: set<string> := {
    LoginMissingProperty, LoginWrongType, RefreshTokenMissing, RefreshTokenWrongType}

  lemma EveryEntryIsAClientError()
    ensures forall k :: k in Directories ==>
      && Directories[k].Client?
      && (|| Directories[k].message in RegistrationMessages || Directories[k].message in CreationMessages
          || Directories[k].message in DeletionMessages || Directories[k].message in AuthenticationMessages)
  {
  }

  lemma RegistrationMessagesAreNotKeys()
    ensures forall m :: m in RegistrationMessages ==> m !in Directories
  {
  }

  lemma CreationMessagesAreNotKeys()
    ensures forall m :: m in CreationMessages ==> m !in Directories
  {
  }

  lemma DeletionMessagesAreNotKeys()
    ensures forall m :: m in DeletionMessages ==> m !in Directories
  {
  }

  lemma AuthenticationMessagesAreNotKeys()
    ensures forall m :: m in AuthenticationMessages ==> m !in Directories
  {
  }

  /** No user-facing message in the directory is itself a key of the directory. */
  lemma MessagesAreNotKeys()
    ensures forall k :: k in Directories ==> Directories[k].Client? && Directories[k].message !in Directories
  {
    EveryEntryIsAClientError();
    RegistrationMessagesAreNotKeys();
    CreationMessagesAreNotKeys();
    DeletionMessagesAreNotKeys();
    AuthenticationMessagesAreNotKeys();
  }

  /** `translate(error)`: the directory entry for the error's message, or the error itself. */
  function Translate(e: DomainError): (r: DomainError)
    ensures r != e <==> e.message in Directories
    ensures e.message in Directories ==> r == Directories[e.message]
    ensures r != e ==> r.Client? && r.message !in Directories
  {
    MessagesAreNotKeys();
    if e.message in Directories then Directories[e.message] else e
  }

  /** Translating an already translated error changes nothing. */
  lemma TranslateIdempotent(e: DomainError)
    ensures Translate(Translate(e)) == Translate(e)
  {
  }

  /** The two not-found signals are the only NotFound entries. */
  lemma NotFoundEntries()
    ensures forall k :: k in Directories ==>
      (Directories[k].category == NotFound <==> k == ThreadNotFound || k == CommentNotFound)
  {
  }

  /** NOT_OWNER is the only Authorization entry. */
  lemma AuthorizationEntries()
    ensures forall k :: k in Directories ==> (Directories[k].category == Authorization <==> k == NotOwner)
  {
  }

  /** Every other key (the `*.NOT_CONTAIN_*`, `*.NOT_MEET_*` and other entity signals) is an Invariant entry. */
  lemma InvariantEntries()
    ensures forall k :: k in Directories ==>
      (Directories[k].category == Invariant <==> k !in {ThreadNotFound, CommentNotFound, NotOwner})
  {
  }

  /** The reply signals are not in the directory, so they leave the translator unchanged. */
  lemma ReplySignalsPassThrough(e: DomainError)
    requires e.message in {ReplyNotFound, AddReplyMissingProperty, AddReplyWrongType,
                           DeleteReplyMissingProperty, DeleteReplyWrongType}
    ensures Translate(e) == e
  {
  }

  /** What the use cases' signals become once translated. */
  lemma UseCaseSignals()
    ensures Translate(Raised(ThreadNotFound)) == Client(NotFound, ThreadNotFoundMessage)
    ensures Translate(Raised(CommentNotFound)) == Client(NotFound, CommentNotFoundMessage)
    ensures Translate(Raised(NotOwner)).category == Authorization
    ensures Translate(Raised(AddCommentMissingProperty)).category == Invariant
    ensures Translate(Raised(DeleteCommentWrongType)).category == Invariant
  {
  }
}
