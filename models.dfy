/** The two records the session engine exchanges with the store: the project
    whose SMTP credentials open a session, and the email a session hands over.
    Timestamps and the email's own row id are assigned by the store and the
    clock, and are not part of the model. */
module Models {

  /** A row of the projects table. Its SMTP user name and password are byte
      strings, compared byte for byte with what the client's base64 payload
      decodes to: a name with non-ASCII letters is stored as its UTF-8 bytes,
      one `char` per byte. */
  datatype Project = Project(id: int, name: string, apiKey: string, smtpUser: string, smtpPass: string)

  datatype Email = Email(projectId: int, from: string, to: seq<string>, subject: string, body: string, raw: string)
}
