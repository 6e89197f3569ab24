/** The admin list columns of posts and comments that shorten long text. */
module PostsAdmin {
  import opened Text
  import opened PostsModels

  /** `PostAdmin.caption_preview`: the caption, cut to its first 50 characters followed by
      "..." when it is longer. */
  function CaptionPreview(p: Post): (r: string)
    ensures |p.caption| <= PreviewLimit ==> r == p.caption
    ensures |p.caption| > PreviewLimit ==> r == p.caption[..PreviewLimit] + "..."
    ensures |r| <= PreviewLimit + 3
  {
    Preview(p.caption)
  }

  /** `CommentAdmin.text_preview`: the same rule on the comment text. */
  function TextPreview(c: Comment): (r: string)
    ensures |c.text| <= PreviewLimit ==> r == c.text
    ensures |c.text| > PreviewLimit ==> r == c.text[..PreviewLimit] + "..."
    ensures |r| <= PreviewLimit + 3
  {
    Preview(c.text)
  }
}
