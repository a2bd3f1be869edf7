/** Record types shared by the comment store, the news service and the router
    (types.ts), and the failure values the model uses for JavaScript exceptions. */
module Types {

  datatype Option<T> = None | Some(value: T)

  /** What a JavaScript `throw` carries, as far as the callers can tell them apart. */
  datatype Error =
    | SyntaxError              // JSON.parse rejected its input
    | TypeError                // a property or method used on a value that lacks it (null.x, obj.push)
    | QuotaExceeded            // localStorage.setItem refused the write
    | UpstreamFailed           // the hosted AI call rejected
    | Thrown(message: string)  // `throw new Error(message)` in the source itself

  datatype Result<T> = Ok(value: T) | Err(error: Error)

  /** A news item as the views consume it. */
  datatype Article = Article(
    id: string,
    title: string,
    summary: string,
    fullContent: Option<string>,
    source: string,
    originalLink: string,
    publishedAt: string,
    imageUrl: Option<string>,
    category: string)

  /** A reader comment; `createdAt` is epoch milliseconds. */
  datatype Comment = Comment(
    id: string,
    articleId: string,
    user: string,
    text: string,
    createdAt: int)
}
